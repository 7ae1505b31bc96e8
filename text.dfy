/** The Python string operations the core relies on: `str.split()`, `str.strip()`,
    substring search, and the space-separated join built by `set_db_tables`. */
module Text {

  /** `c.isspace()`: the characters `str.split()` and `str.strip()` treat as whitespace. */
  predicate IsSpace(c: char)
  {
    ('\U{9}' <= c <= '\U{D}') || ('\U{1C}' <= c <= '\U{20}') ||
    c == '\U{85}' || c == '\U{A0}' || c == '\U{1680}' || ('\U{2000}' <= c <= '\U{200A}') ||
    c == '\U{2028}' || c == '\U{2029}' || c == '\U{202F}' || c == '\U{205F}' || c == '\U{3000}'
  }

  predicate NoSpace(s: string)
  {
    forall i :: 0 <= i < |s| ==> !IsSpace(s[i])
  }

  /** A word `str.split()` can return: non-empty, without whitespace. */
  predicate IsWord(s: string)
  {
    s != [] && NoSpace(s)
  }

  predicate StartsWith(s: string, p: string)
  {
    |p| <= |s| && s[..|p|] == p
  }

  /** `p in s` (also `re.search(p, s)` for a pattern without special characters). */
  predicate Contains(s: string, p: string)
    decreases |s|
  {
    StartsWith(s, p) || (s != [] && Contains(s[1..], p))
  }

  lemma {:induction false} ContainsChar(s: string, c: char)
    ensures Contains(s, [c]) <==> c in s
    decreases |s|
  {
    if s != [] {
      ContainsChar(s[1..], c);
      assert s == [s[0]] + s[1..];
    }
  }

  /** Splitting `s` when `word` holds the characters of the word read so far. */
  function SplitFrom(s: string, word: string): (r: seq<string>)
    requires NoSpace(word)
    ensures forall i :: 0 <= i < |r| ==> IsWord(r[i])
    decreases |s|
  {
    if s == [] then (if word == [] then [] else [word])
    else if IsSpace(s[0]) then (if word == [] then [] else [word]) + SplitFrom(s[1..], [])
    else SplitFrom(s[1..], word + [s[0]])
  }

  /** `s.split()`: the maximal runs of non-whitespace characters, in order (see `SplitSpaced`). */
  function Split(s: string): (r: seq<string>)
    ensures forall i :: 0 <= i < |r| ==> IsWord(r[i])
  {
    SplitFrom(s, [])
  }

  /** `s.lstrip()`: drops the leading whitespace and nothing else. */
  function TrimLeft(s: string): (r: string)
    ensures r == [] || !IsSpace(r[0])
    ensures |r| <= |s| && r == s[|s| - |r|..]
    ensures forall i :: 0 <= i < |s| - |r| ==> IsSpace(s[i])
    decreases |s|
  {
    if s != [] && IsSpace(s[0]) then TrimLeft(s[1..]) else s
  }

  /** `s.rstrip()`: drops the trailing whitespace and nothing else. */
  function TrimRight(s: string): (r: string)
    ensures r == [] || !IsSpace(r[|r| - 1])
    ensures |r| <= |s| && r == s[..|r|]
    ensures forall i :: |r| <= i < |s| ==> IsSpace(s[i])
    decreases |s|
  {
    if s != [] && IsSpace(s[|s| - 1]) then TrimRight(s[..|s| - 1]) else s
  }

  /** `s.strip()`: the slice of `s` that remains once the whitespace at both ends is dropped. */
  function Strip(s: string): (r: string)
    ensures var k := |s| - |TrimLeft(s)|;
      && k + |r| <= |s| && r == s[k..k + |r|]
      && (forall i :: 0 <= i < k ==> IsSpace(s[i]))
      && (forall i :: k + |r| <= i < |s| ==> IsSpace(s[i]))
  {
    TrimRight(TrimLeft(s))
  }

  /** What the loop in `set_db_tables` accumulates: every name followed by one space. */
  function JoinTrailing(names: seq<string>): string
  {
    if names == [] then "" else names[0] + " " + JoinTrailing(names[1..])
  }

  /** `" ".join(names)`. */
  function Join(names: seq<string>): string
  {
    if names == [] then ""
    else if |names| == 1 then names[0]
    else names[0] + " " + Join(names[1..])
  }

  lemma {:induction false} JoinTrailingIsJoin(names: seq<string>)
    requires names != []
    ensures JoinTrailing(names) == Join(names) + " "
    decreases |names|
  {
    if |names| > 1 {
      JoinTrailingIsJoin(names[1..]);
    }
  }

  lemma {:induction false} JoinEnds(names: seq<string>)
    requires names != [] && forall i :: 0 <= i < |names| ==> IsWord(names[i])
    ensures var s := Join(names); s != [] && !IsSpace(s[0]) && !IsSpace(s[|s| - 1])
    decreases |names|
  {
    if |names| > 1 {
      JoinEnds(names[1..]);
      var s := Join(names);
      assert s == names[0] + (" " + Join(names[1..]));
      assert s[|s| - 1] == Join(names[1..])[|Join(names[1..])| - 1];
    }
  }

  /** Appending one more name to the loop's string. */
  lemma {:induction false} JoinTrailingSnoc(names: seq<string>, name: string)
    ensures JoinTrailing(names + [name]) == JoinTrailing(names) + name + " "
    decreases |names|
  {
    if names != [] {
      assert (names + [name])[1..] == names[1..] + [name];
      JoinTrailingSnoc(names[1..], name);
    } else {
      assert ([] + [name])[1..] == [];
    }
  }

  /** A stripped string neither starts nor ends with whitespace. */
  lemma StripEnds(s: string)
    ensures var r := Strip(s); r == [] || (!IsSpace(r[0]) && !IsSpace(r[|r| - 1]))
  {
    var l := TrimLeft(s);
    var r := TrimRight(l);
    if r != [] {
      assert r[0] == l[0];
    }
  }

  /** Stripping the accumulated string removes exactly the final space. */
  lemma StripJoinTrailing(names: seq<string>)
    requires forall i :: 0 <= i < |names| ==> IsWord(names[i])
    ensures Strip(JoinTrailing(names)) == Join(names)
  {
    if names != [] {
      JoinTrailingIsJoin(names);
      JoinEnds(names);
      var s := Join(names);
      assert (s + " ")[0] == s[0];
      TrimRightSpace(s);
      assert TrimRight(s) == s;
    }
  }

  lemma TrimRightSpace(s: string)
    ensures TrimRight(s + " ") == TrimRight(s)
  {
    assert (s + " ")[..|s|] == s;
  }

  /** Reading a word's characters only extends the pending word. */
  lemma {:induction false} SplitFromWord(w: string, t: string, word: string)
    requires NoSpace(word) && NoSpace(w)
    ensures NoSpace(word + w)
    ensures SplitFrom(w + t, word) == SplitFrom(t, word + w)
    decreases |w|
  {
    if w != [] {
      assert (w + t)[0] == w[0] && (w + t)[1..] == w[1..] + t;
      assert NoSpace(word + [w[0]]);
      SplitFromWord(w[1..], t, word + [w[0]]);
      assert word + [w[0]] + w[1..] == word + w;
    } else {
      assert w + t == t && word + w == word;
    }
  }

  /** Splitting the joined names gives the names back. */
  lemma {:induction false} SplitJoin(names: seq<string>)
    requires forall i :: 0 <= i < |names| ==> IsWord(names[i])
    ensures Split(Join(names)) == names
    decreases |names|
  {
    if |names| == 1 {
      SplitFromWord(names[0], [], []);
      assert names[0] + [] == names[0];
    } else if |names| > 1 {
      var rest := Join(names[1..]);
      var t := " " + rest;
      assert t[0] == ' ' && t[1..] == rest;
      calc {
        Split(Join(names));
        { assert Join(names) == names[0] + t; }
        SplitFrom(names[0] + t, []);
        { SplitFromWord(names[0], t, []); assert [] + names[0] == names[0]; }
        SplitFrom(t, names[0]);
        [names[0]] + SplitFrom(rest, []);
        { SplitJoin(names[1..]); }
        [names[0]] + names[1..];
        names;
      }
    }
  }

  predicate AllSpace(s: string)
  {
    forall i :: 0 <= i < |s| ==> IsSpace(s[i])
  }

  /** Words separated by the whitespace runs `seps`: `names[0] + seps[0] + names[1] + ...`. */
  function Spaced(names: seq<string>, seps: seq<string>): string
    requires |seps| + 1 == |names|
    decreases |names|
  {
    if |names| == 1 then names[0] else names[0] + seps[0] + Spaced(names[1..], seps[1..])
  }

  /** Leading whitespace starts no word. */
  lemma {:induction false} SplitFromSpaces(w: string, t: string)
    requires AllSpace(w)
    ensures SplitFrom(w + t, []) == SplitFrom(t, [])
    decreases |w|
  {
    if w != [] {
      assert (w + t)[0] == w[0] && (w + t)[1..] == w[1..] + t;
      SplitFromSpaces(w[1..], t);
    } else {
      assert w + t == t;
    }
  }

  /** A non-empty whitespace run ends the pending word. */
  lemma SplitFromGap(word: string, sep: string, t: string)
    requires IsWord(word) && sep != [] && AllSpace(sep)
    ensures SplitFrom(sep + t, word) == [word] + SplitFrom(t, [])
  {
    assert (sep + t)[0] == sep[0] && (sep + t)[1..] == sep[1..] + t;
    SplitFromSpaces(sep[1..], t);
  }

  lemma {:induction false} SplitFromSpaced(names: seq<string>, seps: seq<string>, trail: string)
    requires |seps| + 1 == |names| && AllSpace(trail)
    requires forall i :: 0 <= i < |names| ==> IsWord(names[i])
    requires forall i :: 0 <= i < |seps| ==> seps[i] != [] && AllSpace(seps[i])
    ensures SplitFrom(Spaced(names, seps) + trail, []) == names
    decreases |names|
  {
    var w := names[0];
    if |names| == 1 {
      assert Spaced(names, seps) + trail == w + trail;
      SplitFromWord(w, trail, []);
      assert [] + w == w;
      if trail == [] {
        assert SplitFrom(trail, w) == [w];
      } else {
        SplitFromGap(w, trail, []);
        assert trail + [] == trail;
      }
      assert names == [w];
    } else {
      var rest := Spaced(names[1..], seps[1..]) + trail;
      assert Spaced(names, seps) + trail == w + (seps[0] + rest);
      SplitFromWord(w, seps[0] + rest, []);
      assert [] + w == w;
      SplitFromGap(w, seps[0], rest);
      SplitFromSpaced(names[1..], seps[1..], trail);
      assert names == [w] + names[1..];
    }
  }

  /** `str.split()` returns exactly the words of a text made of words separated by non-empty
      whitespace runs, with any whitespace before the first and after the last. */
  lemma SplitSpaced(lead: string, names: seq<string>, seps: seq<string>, trail: string)
    requires AllSpace(lead) && AllSpace(trail) && |seps| + 1 == |names|
    requires forall i :: 0 <= i < |names| ==> IsWord(names[i])
    requires forall i :: 0 <= i < |seps| ==> seps[i] != [] && AllSpace(seps[i])
    ensures Split(lead + Spaced(names, seps) + trail) == names
  {
    assert lead + Spaced(names, seps) + trail == lead + (Spaced(names, seps) + trail);
    SplitFromSpaces(lead, Spaced(names, seps) + trail);
    SplitFromSpaced(names, seps, trail);
  }

  /** A text of whitespace only has no words. */
  lemma SplitBlank(s: string)
    requires AllSpace(s)
    ensures Split(s) == []
  {
    SplitFromSpaces(s, []);
    assert s + [] == s;
  }
}
