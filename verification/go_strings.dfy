/**
  The part of Go's `strings` package that gh-ws relies on, stated over
  `string` (a sequence of Unicode code points).  Every function here is
  total, as its Go counterpart is, and each one's contract or lemmas say
  what the Go documentation promises of it.
 */
module GoStrings {

  /** `strings.HasPrefix(s, prefix)` */
  predicate HasPrefix(s: string, prefix: string) {
    |prefix| <= |s| && s[..|prefix|] == prefix
  }

  /** `strings.HasSuffix(s, suffix)` */
  predicate HasSuffix(s: string, suffix: string) {
    |suffix| <= |s| && s[|s| - |suffix|..] == suffix
  }

  /** `HasPrefix` holds exactly when `s` is `prefix` followed by something. */
  lemma HasPrefixIff(s: string, prefix: string)
    ensures HasPrefix(s, prefix) <==> exists rest :: s == prefix + rest
  {
    if HasPrefix(s, prefix) {
      assert s == prefix + s[|prefix|..];
    }
  }

  /** `HasSuffix` holds exactly when `s` is something followed by `suffix`. */
  lemma HasSuffixIff(s: string, suffix: string)
    ensures HasSuffix(s, suffix) <==> exists rest :: s == rest + suffix
  {
    if HasSuffix(s, suffix) {
      assert s == s[..|s| - |suffix|] + suffix;
    }
  }

  /** `strings.TrimPrefix`: drops one leading `prefix`, if there is one. */
  function TrimPrefix(s: string, prefix: string): (r: string)
    ensures HasPrefix(s, prefix) ==> prefix + r == s
    ensures !HasPrefix(s, prefix) ==> r == s
  {
    if HasPrefix(s, prefix) then s[|prefix|..] else s
  }

  /** `strings.TrimSuffix`: drops one trailing `suffix`, if there is one. */
  function TrimSuffix(s: string, suffix: string): (r: string)
    ensures HasSuffix(s, suffix) ==> r + suffix == s
    ensures !HasSuffix(s, suffix) ==> r == s
  {
    if HasSuffix(s, suffix) then s[..|s| - |suffix|] else s
  }

  /** A string is recognised by `HasPrefix` exactly when it is `prefix + rest`,
      and then `TrimPrefix` gives back `rest`. */
  lemma PrefixedIff(s: string, prefix: string, rest: string)
    ensures (HasPrefix(s, prefix) && TrimPrefix(s, prefix) == rest) <==> s == prefix + rest
  {
    if s == prefix + rest {
      assert s[..|prefix|] == prefix;
      assert s[|prefix|..] == rest;
    }
  }

  /** A string is recognised by `HasSuffix` exactly when it is `rest + suffix`,
      and then `TrimSuffix` gives back `rest`. */
  lemma SuffixedIff(s: string, suffix: string, rest: string)
    ensures (HasSuffix(s, suffix) && TrimSuffix(s, suffix) == rest) <==> s == rest + suffix
  {
    if s == rest + suffix {
      assert s[|s| - |suffix|..] == suffix;
      assert s[..|s| - |suffix|] == rest;
    }
  }

  /** Trimming a suffix adds no character. */
  lemma TrimSuffixKeepsOut(s: string, suffix: string, c: char)
    requires c !in s
    ensures c !in TrimSuffix(s, suffix)
  {
    var r := TrimSuffix(s, suffix);
    if HasSuffix(s, suffix) {
      assert r == s[..|s| - |suffix|];
    }
  }

  // ---------------------------------------------------------------------
  // strings.Split with a one-character separator
  // ---------------------------------------------------------------------

  /** `strings.Split(s, [sep])`: the pieces of `s` between occurrences of
      `sep`.  Like Go's, it never returns an empty list: a string without
      `sep` (the empty string included) gives a single piece. */
  function Split(s: string, sep: char): (parts: seq<string>)
    ensures |parts| >= 1
    decreases |s|
  {
    if s == [] then [""]
    else
      var rest := Split(s[1..], sep);
      if s[0] == sep then [""] + rest
      else [[s[0]] + rest[0]] + rest[1..]
  }

  /** No piece holds the separator. */
  lemma {:induction false} SplitPartsOmitSep(s: string, sep: char)
    ensures forall p <- Split(s, sep) :: sep !in p
    decreases |s|
  {
    if s != [] {
      SplitPartsOmitSep(s[1..], sep);
      var rest := Split(s[1..], sep);
      if s[0] != sep {
        assert sep !in [s[0]] + rest[0];
      }
    }
  }

  /** `strings.Join(parts, [sep])`, the inverse of `Split`. */
  function Join(parts: seq<string>, sep: char): string
  {
    if parts == [] then ""
    else if |parts| == 1 then parts[0]
    else parts[0] + [sep] + Join(parts[1..], sep)
  }

  /** Splitting loses nothing: joining the pieces gives back the input. */
  lemma {:induction false} JoinSplit(s: string, sep: char)
    ensures Join(Split(s, sep), sep) == s
    decreases |s|
  {
    if s != [] {
      var rest := Split(s[1..], sep);
      JoinSplit(s[1..], sep);
      if s[0] == sep {
        assert Split(s, sep) == [""] + rest;
        assert ([""] + rest)[1..] == rest;
      } else {
        var parts := Split(s, sep);
        assert parts == [[s[0]] + rest[0]] + rest[1..];
        if |rest| == 1 {
          assert Join(rest, sep) == rest[0];
        } else {
          assert parts[1..] == rest[1..];
          assert Join(rest, sep) == rest[0] + [sep] + Join(rest[1..], sep);
        }
      }
    }
  }

  /** A string without the separator is a single piece. */
  lemma {:induction false} SplitNoSep(s: string, sep: char)
    requires sep !in s
    ensures Split(s, sep) == [s]
    decreases |s|
  {
    if s != [] {
      SplitNoSep(s[1..], sep);
      assert [s[0]] + s[1..] == s;
    }
  }

  /** `Split` on a string that starts with the separator. */
  lemma SplitConsSep(t: string, sep: char)
    ensures Split([sep] + t, sep) == [""] + Split(t, sep)
  {
    assert ([sep] + t)[1..] == t;
  }

  /** `Split` on a string that starts with another character. */
  lemma SplitConsOther(c: char, t: string, sep: char)
    requires c != sep
    ensures Split([c] + t, sep) == [[c] + Split(t, sep)[0]] + Split(t, sep)[1..]
  {
    assert ([c] + t)[0] == c;
    assert ([c] + t)[1..] == t;
  }

  /** The inductive step of `SplitAppend` when a separator is put in front. */
  lemma SplitAppendStepSep(t: string, b: string, sep: char)
    requires Split(t + [sep] + b, sep) == Split(t, sep) + Split(b, sep)
    ensures Split([sep] + t + [sep] + b, sep) == Split([sep] + t, sep) + Split(b, sep)
  {
    var x := t + [sep] + b;
    assert [sep] + t + [sep] + b == [sep] + x;
    SplitConsSep(x, sep);
    SplitConsSep(t, sep);
    PrependPiece("", Split(t, sep), Split(b, sep));
  }

  /** Concatenation of pieces is associative. */
  lemma PrependPiece(p: string, rt: seq<string>, rb: seq<string>)
    ensures [p] + (rt + rb) == ([p] + rt) + rb
  {
  }

  /** Extending the first piece of `rt + rb` is extending the first piece
      of `rt`. */
  lemma ExtendFirstPiece(c: char, rt: seq<string>, rb: seq<string>)
    requires |rt| >= 1
    ensures var rest := rt + rb; [[c] + rest[0]] + rest[1..] == ([[c] + rt[0]] + rt[1..]) + rb
  {
    var rest := rt + rb;
    assert rest[0] == rt[0];
    assert rest[1..] == rt[1..] + rb;
  }

  /** The inductive step of `SplitAppend` when another character is put in
      front: it joins the first piece. */
  lemma SplitAppendStepOther(c: char, t: string, b: string, sep: char)
    requires c != sep
    requires Split(t + [sep] + b, sep) == Split(t, sep) + Split(b, sep)
    ensures Split([c] + t + [sep] + b, sep) == Split([c] + t, sep) + Split(b, sep)
  {
    var x := t + [sep] + b;
    assert [c] + t + [sep] + b == [c] + x;
    SplitConsOther(c, x, sep);
    SplitConsOther(c, t, sep);
    ExtendFirstPiece(c, Split(t, sep), Split(b, sep));
  }

  /** Splitting distributes over a separator: the pieces of `a + [sep] + b`
      are the pieces of `a` followed by the pieces of `b`. */
  lemma {:induction false} SplitAppend(a: string, b: string, sep: char)
    ensures Split(a + [sep] + b, sep) == Split(a, sep) + Split(b, sep)
    decreases |a|
  {
    if a == [] {
      assert a + [sep] + b == [sep] + b;
      SplitConsSep(b, sep);
    } else {
      SplitAppend(a[1..], b, sep);
      if a[0] == sep {
        SplitAppendStepSep(a[1..], b, sep);
      } else {
        SplitAppendStepOther(a[0], a[1..], b, sep);
      }
      assert a == [a[0]] + a[1..];
    }
  }

  /** Joining pieces that hold no separator and splitting again gives back
      the same pieces: `Split` and `Join` are mutually inverse. */
  lemma {:induction false} SplitJoin(parts: seq<string>, sep: char)
    requires |parts| >= 1
    requires forall p <- parts :: sep !in p
    ensures Split(Join(parts, sep), sep) == parts
    decreases |parts|
  {
    SplitNoSep(parts[0], sep);
    if |parts| > 1 {
      SplitJoin(parts[1..], sep);
      SplitAppend(parts[0], Join(parts[1..], sep), sep);
      assert parts == [parts[0]] + parts[1..];
    }
  }

  // ---------------------------------------------------------------------
  // The last piece
  // ---------------------------------------------------------------------

  /** The longest suffix of `s` holding no `sep`, read from the right end:
      an independent definition of "the text after the last separator". */
  function LastSegment(s: string, sep: char): (seg: string)
    ensures sep !in seg
    ensures |seg| <= |s| && seg == s[|s| - |seg|..]
    ensures |seg| < |s| ==> s[|s| - |seg| - 1] == sep
    decreases |s|
  {
    if s == [] then ""
    else if s[|s| - 1] == sep then ""
    else
      var init := s[..|s| - 1];
      var seg := LastSegment(init, sep) + [s[|s| - 1]];
      assert s == init + [s[|s| - 1]];
      seg
  }

  /** The last piece `Split` returns is the text after the last separator. */
  lemma SplitLast(s: string, sep: char)
    ensures var parts := Split(s, sep); parts[|parts| - 1] == LastSegment(s, sep)
  {
    var seg := LastSegment(s, sep);
    if |seg| == |s| {
      assert seg == s;
      SplitNoSep(s, sep);
    } else {
      var k := |s| - |seg| - 1;
      assert s == s[..k] + [sep] + seg;
      SplitAppend(s[..k], seg, sep);
      SplitNoSep(seg, sep);
    }
  }

  /** What follows the last separator is found whatever precedes it. */
  lemma {:induction false} LastSegmentAfter(prefix: string, seg: string, sep: char)
    requires sep !in seg
    ensures LastSegment(prefix + [sep] + seg, sep) == seg
    decreases |seg|
  {
    var s := prefix + [sep] + seg;
    if seg != [] {
      var init := seg[..|seg| - 1];
      assert s[..|s| - 1] == prefix + [sep] + init;
      assert s[|s| - 1] == seg[|seg| - 1];
      LastSegmentAfter(prefix, init, sep);
      assert init + [seg[|seg| - 1]] == seg;
    }
  }

  // ---------------------------------------------------------------------
  // strings.TrimSpace
  // ---------------------------------------------------------------------

  /** `unicode.IsSpace`: the Latin-1 spaces ('\t', '\n', '\v', '\f', '\r',
      ' ', U+0085, U+00A0) and the other code points of Unicode's
      White_Space property. */
  predicate IsSpace(c: char) {
    || ('\t' <= c <= '\r')
    || c == ' ' || c == '\U{0085}' || c == '\U{00A0}' || c == '\U{1680}'
    || ('\U{2000}' <= c <= '\U{200A}')
    || c == '\U{2028}' || c == '\U{2029}' || c == '\U{202F}' || c == '\U{205F}'
    || c == '\U{3000}'
  }

  /** `s` with its leading white space removed. */
  function TrimLeadingSpace(s: string): (r: string)
    ensures |r| <= |s| && r == s[|s| - |r|..]
    ensures forall i :: 0 <= i < |s| - |r| ==> IsSpace(s[i])
    ensures r != [] ==> !IsSpace(r[0])
    decreases |s|
  {
    if s != [] && IsSpace(s[0]) then TrimLeadingSpace(s[1..]) else s
  }

  /** `s` with its trailing white space removed. */
  function TrimTrailingSpace(s: string): (r: string)
    ensures |r| <= |s| && r == s[..|r|]
    ensures forall i :: |r| <= i < |s| ==> IsSpace(s[i])
    ensures r != [] ==> !IsSpace(r[|r| - 1])
    decreases |s|
  {
    if s != [] && IsSpace(s[|s| - 1]) then TrimTrailingSpace(s[..|s| - 1]) else s
  }

  /** `s` is `r` with only white space around it, `i` code points before it. */
  predicate SpacePadded(s: string, i: int, r: string) {
    && 0 <= i <= |s| - |r|
    && r == s[i..i + |r|]
    && (forall k :: 0 <= k < i ==> IsSpace(s[k]))
    && (forall k :: i + |r| <= k < |s| ==> IsSpace(s[k]))
  }

  /** A prefix of a suffix is a slice. */
  lemma PrefixOfSuffix(s: string, t: string, r: string)
    requires |t| <= |s| && t == s[|s| - |t|..]
    requires |r| <= |t| && r == t[..|r|]
    ensures r == s[|s| - |t|..|s| - |t| + |r|]
  {
  }

  /** White space at the end of a suffix is white space at the end of the
      whole string. */
  lemma SpacesOfSuffix(s: string, t: string, n: nat)
    requires |t| <= |s| && t == s[|s| - |t|..]
    requires forall k :: n <= k < |t| ==> IsSpace(t[k])
    ensures forall k :: |s| - |t| + n <= k < |s| ==> IsSpace(s[k])
  {
    var i := |s| - |t|;
    forall k | i + n <= k < |s| ensures IsSpace(s[k]) {
      assert s[k] == t[k - i];
    }
  }

  /** Removing leading white space, then trailing white space, leaves a
      piece that only white space surrounds. */
  lemma PaddingOfTrims(s: string, t: string, r: string)
    requires t == TrimLeadingSpace(s) && r == TrimTrailingSpace(t)
    ensures SpacePadded(s, |s| - |t|, r)
  {
    PrefixOfSuffix(s, t, r);
    SpacesOfSuffix(s, t, |r|);
  }

  /** `strings.TrimSpace`: the piece of `s` left once white space is removed
      from both ends; only white space is removed. */
  function TrimSpace(s: string): (r: string)
    ensures r != [] ==> !IsSpace(r[0]) && !IsSpace(r[|r| - 1])
    ensures exists i :: SpacePadded(s, i, r)
  {
    var t := TrimLeadingSpace(s);
    var r := TrimTrailingSpace(t);
    PaddingOfTrims(s, t, r);
    r
  }

  /** Leading white space in front of a string that does not start with
      white space is exactly what `TrimLeadingSpace` removes. */
  lemma {:induction false} TrimLeadingPadded(lead: string, rest: string)
    requires forall k :: 0 <= k < |lead| ==> IsSpace(lead[k])
    requires rest != [] ==> !IsSpace(rest[0])
    ensures TrimLeadingSpace(lead + rest) == rest
    decreases |lead|
  {
    if lead != [] {
      assert (lead + rest)[1..] == lead[1..] + rest;
      TrimLeadingPadded(lead[1..], rest);
    }
  }

  /** Trailing white space after a string that does not end with white
      space is exactly what `TrimTrailingSpace` removes. */
  lemma {:induction false} TrimTrailingPadded(rest: string, trail: string)
    requires forall k :: 0 <= k < |trail| ==> IsSpace(trail[k])
    requires rest != [] ==> !IsSpace(rest[|rest| - 1])
    ensures TrimTrailingSpace(rest + trail) == rest
    decreases |trail|
  {
    if trail != [] {
      var s := rest + trail;
      assert s[..|s| - 1] == rest + trail[..|trail| - 1];
      TrimTrailingPadded(rest, trail[..|trail| - 1]);
    } else {
      assert rest + trail == rest;
    }
  }

  /** The piece `TrimSpace` keeps is unique: padding a string that neither
      starts nor ends with white space, with white space only, is undone. */
  lemma TrimSpacePadded(lead: string, core: string, trail: string)
    requires forall k :: 0 <= k < |lead| ==> IsSpace(lead[k])
    requires forall k :: 0 <= k < |trail| ==> IsSpace(trail[k])
    requires core != [] ==> !IsSpace(core[0]) && !IsSpace(core[|core| - 1])
    ensures TrimSpace(lead + core + trail) == core
  {
    if core == [] {
      assert lead + core + trail == (lead + trail) + [];
      TrimLeadingPadded(lead + trail, []);
    } else {
      assert lead + core + trail == lead + (core + trail);
      TrimLeadingPadded(lead, core + trail);
      TrimTrailingPadded(core, trail);
    }
  }
}
