/**
 * The parts of Python's `str` that the pipeline relies on, on `seq<char>`:
 * `isspace`, `strip`, `split` and `join` on a literal separator, `replace` of a
 * literal, the `in` substring test, and the decimal rendering of a non-negative
 * `int` inside an f-string.
 */
module PyStr {

  // ---------------------------------------------------------------------------
  // Whitespace
  // ---------------------------------------------------------------------------

  /** Python's `str.isspace()` for one character. The same set is what `str.strip()`
      removes and what `\s` matches in a `re` pattern over `str`. */
  predicate IsSpace(c: char) {
    ('\t' <= c <= '\r')                  // \t \n \x0b \x0c \r
    || ('\U{1C}' <= c <= '\U{1F}')       // file, group, record and unit separators
    || c == ' ' || c == '\U{85}' || c == '\U{A0}' || c == '\U{1680}'
    || ('\U{2000}' <= c <= '\U{200A}')
    || c == '\U{2028}' || c == '\U{2029}' || c == '\U{202F}' || c == '\U{205F}' || c == '\U{3000}'
  }

  predicate AllSpace(s: string) {
    forall i :: 0 <= i < |s| ==> IsSpace(s[i])
  }

  /** Neither end of `s` is whitespace: what `str.strip()` leaves behind. */
  predicate IsStripped(s: string) {
    s == [] || (!IsSpace(s[0]) && !IsSpace(s[|s| - 1]))
  }

  /** Length of the whitespace run that `s` starts with. */
  function LeadingSpaces(s: string): (n: nat)
    ensures n <= |s|
    ensures forall k :: 0 <= k < n ==> IsSpace(s[k])
    ensures n < |s| ==> !IsSpace(s[n])
    decreases |s|
  {
    if |s| > 0 && IsSpace(s[0]) then
      var m := LeadingSpaces(s[1..]);
      assert forall k :: 1 <= k < 1 + m ==> s[k] == s[1..][k - 1];
      1 + m
    else 0
  }

  /** Length of the whitespace run that `s` ends with. */
  function TrailingSpaces(s: string): (n: nat)
    ensures n <= |s|
    ensures forall k :: |s| - n <= k < |s| ==> IsSpace(s[k])
    ensures n < |s| ==> !IsSpace(s[|s| - 1 - n])
    decreases |s|
  {
    if |s| > 0 && IsSpace(s[|s| - 1]) then
      var m := TrailingSpaces(s[..|s| - 1]);
      assert forall k :: |s| - 1 - m <= k < |s| - 1 ==> s[k] == s[..|s| - 1][k];
      1 + m
    else 0
  }

  /** `str.strip()`: the slice of `s` left after removing whitespace at both ends. */
  function Strip(s: string): (r: string)
    ensures IsStripped(r)
    ensures r == [] <==> AllSpace(s)
  {
    var i := LeadingSpaces(s);
    var j := |s| - TrailingSpaces(s);
    if i >= j then
      assert AllSpace(s);
      []
    else
      s[i..j]
  }

  /** What `strip` removes is whitespace, and only from the two ends. */
  lemma StripSlice(s: string)
    ensures var i, r := LeadingSpaces(s), Strip(s);
      && i + |r| <= |s| && r == s[i..i + |r|]
      && (forall k :: 0 <= k < i ==> IsSpace(s[k]))
      && (forall k :: i + |r| <= k < |s| ==> IsSpace(s[k]))
  {
  }

  lemma {:induction false} StripOfStripped(s: string)
    requires IsStripped(s)
    ensures Strip(s) == s
  {
    if s != [] {
      assert LeadingSpaces(s) == 0;
      assert TrailingSpaces(s) == 0;
    }
  }

  /** Stripping twice is stripping once. */
  lemma StripIdempotent(s: string)
    ensures Strip(Strip(s)) == Strip(s)
  {
    StripOfStripped(Strip(s));
  }

  /** Leading whitespace of a concatenation. */
  lemma {:induction false} LeadingSpacesAppend(x: string, y: string)
    ensures LeadingSpaces(x + y) == if LeadingSpaces(x) < |x| then LeadingSpaces(x) else |x| + LeadingSpaces(y)
    decreases |x|
  {
    if x == [] {
      assert x + y == y;
    } else {
      assert (x + y)[0] == x[0];
      assert (x + y)[1..] == x[1..] + y;
      LeadingSpacesAppend(x[1..], y);
    }
  }

  lemma LeadingSpacesOfBlank(w: string)
    requires AllSpace(w)
    ensures LeadingSpaces(w) == |w|
  {
  }

  lemma LeadingSpacesOfNonBlankStart(t: string)
    requires t != [] && !IsSpace(t[0])
    ensures LeadingSpaces(t) == 0
  {
  }

  /** Skipping the whitespace at the start of `w + body + tail`, where `w` is
      whitespace and `tail` starts with something else, skips `w` and the
      whitespace at the start of `body`. */
  lemma SkipLeadingSpaces(w: string, body: string, tail: string)
    requires AllSpace(w) && tail != [] && !IsSpace(tail[0])
    ensures var s := w + body + tail;
      s[LeadingSpaces(s)..] == body[LeadingSpaces(body)..] + tail
  {
    LeadingSpacesBeforeNonBlank(body, tail);
    LeadingSpacesAfterBlank(w, body + tail);
    Regroup3(w, body, tail);
    DropInside(w, body, tail, LeadingSpaces(body));
  }

  lemma LeadingSpacesBeforeNonBlank(body: string, tail: string)
    requires tail != [] && !IsSpace(tail[0])
    ensures LeadingSpaces(body + tail) == LeadingSpaces(body)
  {
    LeadingSpacesOfNonBlankStart(tail);
    LeadingSpacesAppend(body, tail);
  }

  lemma LeadingSpacesAfterBlank(w: string, x: string)
    requires AllSpace(w)
    ensures LeadingSpaces(w + x) == |w| + LeadingSpaces(x)
  {
    LeadingSpacesOfBlank(w);
    LeadingSpacesAppend(w, x);
  }

  /** What follows the last non-whitespace character is whitespace. */
  lemma TrailingRunIsBlank(s: string)
    ensures AllSpace(s[|s| - TrailingSpaces(s)..])
  {
    var t := |s| - TrailingSpaces(s);
    var run := s[t..];
    forall k | 0 <= k < |run| ensures IsSpace(run[k]) { assert run[k] == s[t + k]; }
  }

  /** A suffix that keeps all the non-whitespace of `s` ends in the same
      whitespace run. */
  lemma {:induction false} TrailingSpacesSuffix(s: string, i: nat)
    requires i <= |s| - TrailingSpaces(s)
    ensures TrailingSpaces(s[i..]) == TrailingSpaces(s)
    decreases |s|
  {
    if |s| > 0 && IsSpace(s[|s| - 1]) {
      var p := s[..|s| - 1];
      assert s[i..][..|s[i..]| - 1] == p[i..];
      assert s[i..][|s[i..]| - 1] == s[|s| - 1];
      TrailingSpacesSuffix(p, i);
    } else if i < |s| {
      assert s[i..][|s[i..]| - 1] == s[|s| - 1];
    }
  }

  /** Leading whitespace does not change what `strip()` returns. */
  lemma StripDropsLeadingSpaces(s: string)
    ensures Strip(s[LeadingSpaces(s)..]) == Strip(s)
  {
    var i := LeadingSpaces(s);
    var n := TrailingSpaces(s);
    if i < |s| - n {
      assert s[i..][0] == s[i];
      LeadingSpacesOfNonBlankStart(s[i..]);
      TrailingSpacesSuffix(s, i);
      SliceOfDrop(s, i, |s| - n - i);
      StripSameEnds(s, s[i..], i, n);
    } else {
      BlankAfterLeadingSpaces(s);
    }
  }

  lemma BlankAfterLeadingSpaces(s: string)
    requires LeadingSpaces(s) >= |s| - TrailingSpaces(s)
    ensures Strip(s[LeadingSpaces(s)..]) == Strip(s)
  {
    var i := LeadingSpaces(s);
    assert i == |s|;
    assert s[i..] == [];
  }

  /** Dropping the first `i` characters, all leading whitespace, leaves the
      stripped text where it was. */
  lemma StripSameEnds(s: string, b: string, i: nat, n: nat)
    requires i < |s| - n && |b| == |s| - i && b[0..|b| - n] == s[i..|s| - n]
    requires LeadingSpaces(b) == 0 && TrailingSpaces(b) == n
    requires LeadingSpaces(s) == i && TrailingSpaces(s) == n
    ensures Strip(b) == Strip(s)
  {
  }

  // Generic facts about slicing and regrouping concatenations. Each holds on
  // sight, but stating it over plain sequence variables lets a caller use it
  // without unfolding the string functions applied to those sequences, which
  // keeps the proofs that call them small.

  /** A slice of the right-hand part of a concatenation. */
  lemma SliceAfter<T>(a: seq<T>, b: seq<T>, o: nat, n: nat)
    requires o + n <= |b|
    ensures |a| + o + n <= |a + b| && (a + b)[|a| + o..|a| + o + n] == b[o..o + n]
  {
  }

  /** The left-hand part of a concatenation. */
  lemma SliceFront<T>(a: seq<T>, b: seq<T>)
    ensures (a + b)[0..|a|] == a
  {
  }

  /** A prefix of a suffix is a slice of the whole. */
  lemma SliceOfDrop<T>(s: seq<T>, i: nat, m: nat)
    requires i + m <= |s|
    ensures |s[i..]| == |s| - i && s[i..][0..m] == s[i..i + m]
  {
  }

  /** Concatenation is associative. */
  lemma Regroup3<T>(a: seq<T>, b: seq<T>, c: seq<T>)
    ensures a + b + c == a + (b + c)
  {
  }

  /** Dropping `a` and the first `k` elements of `b` from `a + b + c`. */
  lemma DropInside<T>(a: seq<T>, b: seq<T>, c: seq<T>, k: nat)
    requires k <= |b|
    ensures (a + b + c)[|a| + k..] == b[k..] + c
  {
  }

  /** Putting the first element back in front. */
  lemma PrependHead<T>(a: seq<T>, x: seq<T>)
    requires a != []
    ensures [a[0]] + (a[1..] + x) == a + x
  {
  }

  // ---------------------------------------------------------------------------
  // Substrings
  // ---------------------------------------------------------------------------

  /** Python's `p in s` for strings. */
  predicate Contains(s: string, p: string)
    decreases |s|
  {
    p <= s || (|s| > 0 && Contains(s[1..], p))
  }

  lemma {:induction false} ContainsSelf(p: string)
    ensures Contains(p, p)
  {
  }

  lemma {:induction false} ContainsAppendLeft(a: string, b: string, p: string)
    requires Contains(b, p)
    ensures Contains(a + b, p)
    decreases |a|
  {
    if a != [] {
      assert (a + b)[1..] == a[1..] + b;
      ContainsAppendLeft(a[1..], b, p);
    } else {
      assert a + b == b;
    }
  }

  lemma {:induction false} ContainsAppendRight(a: string, b: string, p: string)
    requires Contains(a, p)
    ensures Contains(a + b, p)
    decreases |a|
  {
    if p <= a {
      assert p <= a + b;
    } else {
      assert (a + b)[1..] == a[1..] + b;
      ContainsAppendRight(a[1..], b, p);
    }
  }

  /** Whatever `b` is, the concatenation `a + b + c` has `b` as a substring. */
  lemma ContainsMiddle(a: string, b: string, c: string)
    ensures Contains(a + b + c, b)
  {
    ContainsSelf(b);
    ContainsAppendRight(b, c, b);
    ContainsAppendLeft(a, b + c, b);
    assert a + b + c == a + (b + c);
  }

  /** Being a substring is transitive. */
  lemma {:induction false} ContainsWithin(s: string, t: string, p: string)
    requires Contains(s, t) && Contains(t, p)
    ensures Contains(s, p)
    decreases |s|
  {
    if t <= s {
      PrefixContains(s, t, p);
    } else {
      ContainsWithin(s[1..], t, p);
    }
  }

  lemma {:induction false} PrefixContains(s: string, t: string, p: string)
    requires t <= s && Contains(t, p)
    ensures Contains(s, p)
    decreases |t|
  {
    if !(p <= t) {
      assert t[1..] <= s[1..];
      PrefixContains(s[1..], t[1..], p);
    }
  }
  /** Transitivity, stated as an implication for callers that hold the negation. */
  lemma ContainsWithinWhen(s: string, t: string, p: string)
    requires Contains(s, t)
    ensures Contains(t, p) ==> Contains(s, p)
  {
    if Contains(t, p) { ContainsWithin(s, t, p); }
  }

  /** A string contains its own `strip()`. */
  lemma ContainsStrip(s: string)
    ensures Contains(s, Strip(s))
  {
    StripSlice(s);
    var i, r := LeadingSpaces(s), Strip(s);
    assert s == s[..i] + r + s[i + |r|..];
    ContainsMiddle(s[..i], r, s[i + |r|..]);
  }

  /** A pattern holding a character that `s` lacks does not occur in `s`. */
  lemma {:induction false} NotContainsMissingChar(s: string, p: string, c: char)
    requires c in p && c !in s
    ensures !Contains(s, p)
    decreases |s|
  {
    if |s| > 0 {
      NotContainsMissingChar(s[1..], p, c);
    }
  }

  // ---------------------------------------------------------------------------
  // split and join on a literal separator
  // ---------------------------------------------------------------------------

  /** `s.split(sep)` for a non-empty literal `sep`: maximal pieces between the
      leftmost non-overlapping occurrences of `sep`; never an empty list. */
  function Split(s: string, sep: string): (r: seq<string>)
    requires |sep| > 0
    ensures |r| >= 1
    ensures r[0] <= s
    decreases |s|
  {
    if sep <= s then [""] + Split(s[|sep|..], sep)
    else if s == [] then [""]
    else
      var rest := Split(s[1..], sep);
      [[s[0]] + rest[0]] + rest[1..]
  }

  /** A string without the separator is a single piece. */
  lemma {:induction false} SplitWithout(s: string, sep: string)
    requires |sep| > 0 && !Contains(s, sep)
    ensures Split(s, sep) == [s]
    decreases |s|
  {
    if s != [] {
      SplitWithout(s[1..], sep);
      assert [s[0]] + s[1..] == s;
    }
  }

  /** A separator preceded by text that shares no character with it ends the
      first piece exactly there. */
  lemma {:induction false} SplitAt(a: string, sep: string, b: string)
    requires |sep| > 0
    requires forall i :: 0 <= i < |a| ==> a[i] !in sep
    ensures Split(a + sep + b, sep) == [a] + Split(b, sep)
    decreases |a|
  {
    var s := a + sep + b;
    if a == [] {
      assert s == sep + b;
      assert s[|sep|..] == b;
    } else {
      assert s[0] == a[0];
      assert !(sep <= s);
      assert s[1..] == a[1..] + sep + b;
      SplitAt(a[1..], sep, b);
      assert [a[0]] + a[1..] == a;
    }
  }

  /** `sep.join(parts)` */
  function Join(sep: string, parts: seq<string>): string
    decreases |parts|
  {
    if parts == [] then ""
    else if |parts| == 1 then parts[0]
    else parts[0] + sep + Join(sep, parts[1..])
  }

  lemma {:induction false} JoinConsHead(sep: string, c: char, parts: seq<string>)
    requires |parts| >= 1
    ensures Join(sep, [[c] + parts[0]] + parts[1..]) == [c] + Join(sep, parts)
  {
    var q := [[c] + parts[0]] + parts[1..];
    if |parts| > 1 {
      assert q[1..] == parts[1..];
    }
  }

  lemma JoinConsEmpty(sep: string, parts: seq<string>)
    requires |parts| >= 1
    ensures Join(sep, [""] + parts) == sep + Join(sep, parts)
  {
    var q := [""] + parts;
    assert q[1..] == parts;
    assert Join(sep, q) == "" + sep + Join(sep, parts);
    assert "" + sep == sep;
  }

  /** Joining the pieces of a split with the same separator gives back the input. */
  lemma {:induction false} JoinSplit(s: string, sep: string)
    requires |sep| > 0
    ensures Join(sep, Split(s, sep)) == s
    decreases |s|
  {
    if sep <= s {
      var rest := Split(s[|sep|..], sep);
      assert Split(s, sep) == [""] + rest;
      JoinSplit(s[|sep|..], sep);
      JoinConsEmpty(sep, rest);
      assert s == sep + s[|sep|..];
    } else if s != [] {
      var rest := Split(s[1..], sep);
      assert Split(s, sep) == [[s[0]] + rest[0]] + rest[1..];
      JoinSplit(s[1..], sep);
      JoinConsHead(sep, s[0], rest);
      assert s == [s[0]] + s[1..];
    }
  }

  /** No piece of a split holds the separator. */
  lemma {:induction false} SplitPiecesFree(s: string, sep: string)
    requires |sep| > 0
    ensures forall i :: 0 <= i < |Split(s, sep)| ==> !Contains(Split(s, sep)[i], sep)
    decreases |s|
  {
    var r := Split(s, sep);
    if sep <= s {
      SplitPiecesFree(s[|sep|..], sep);
      assert !Contains("", sep);
      forall i | 0 <= i < |r| ensures !Contains(r[i], sep) {
        if i > 0 { assert r[i] == Split(s[|sep|..], sep)[i - 1]; }
      }
    } else if s != [] {
      var rest := Split(s[1..], sep);
      SplitPiecesFree(s[1..], sep);
      var head := [s[0]] + rest[0];
      assert head <= s by { assert s == [s[0]] + s[1..]; }
      assert !(sep <= head);
      assert head[1..] == rest[0];
      forall i | 0 <= i < |r| ensures !Contains(r[i], sep) {
        if i > 0 { assert r[i] == rest[i]; }
      }
    }
  }

  /** If every piece and the separator are whitespace, so is the joined text. */
  lemma {:induction false} JoinAllSpace(sep: string, parts: seq<string>)
    requires AllSpace(sep)
    requires forall i :: 0 <= i < |parts| ==> AllSpace(parts[i])
    ensures AllSpace(Join(sep, parts))
    decreases |parts|
  {
    if |parts| > 1 {
      JoinAllSpace(sep, parts[1..]);
      var tail := Join(sep, parts[1..]);
      assert AllSpace(parts[0]);
      var j := parts[0] + sep + tail;
      forall k | 0 <= k < |j| ensures IsSpace(j[k]) {
        if k < |parts[0]| { assert j[k] == parts[0][k]; }
        else if k < |parts[0]| + |sep| { assert j[k] == sep[k - |parts[0]|]; }
        else { assert j[k] == tail[k - |parts[0]| - |sep|]; }
      }
    }
  }

  // ---------------------------------------------------------------------------
  // replace
  // ---------------------------------------------------------------------------

  /** `s.replace(pat, rep)` for a non-empty literal `pat`: every leftmost
      non-overlapping occurrence of `pat` is replaced, scanning left to right. */
  function Replace(s: string, pat: string, rep: string): string
    requires |pat| > 0
    decreases |s|
  {
    if pat <= s then rep + Replace(s[|pat|..], pat, rep)
    else if s == [] then []
    else [s[0]] + Replace(s[1..], pat, rep)
  }

  /** Without an occurrence of the pattern, `replace` changes nothing. */
  lemma {:induction false} ReplaceAbsent(s: string, pat: string, rep: string)
    requires |pat| > 0 && !Contains(s, pat)
    ensures Replace(s, pat, rep) == s
    decreases |s|
  {
    if s != [] {
      ReplaceAbsent(s[1..], pat, rep);
      assert s == [s[0]] + s[1..];
    }
  }

  lemma {:induction false} ReplaceNoLonger(s: string, pat: string, rep: string)
    requires |pat| > 0 && |rep| <= |pat|
    ensures |Replace(s, pat, rep)| <= |s|
    decreases |s|
  {
    if pat <= s {
      ReplaceNoLonger(s[|pat|..], pat, rep);
    } else if s != [] {
      ReplaceNoLonger(s[1..], pat, rep);
    }
  }

  lemma {:induction false} ReplaceNoShorter(s: string, pat: string, rep: string)
    requires |pat| > 0 && |rep| >= |pat|
    ensures |Replace(s, pat, rep)| >= |s|
    decreases |s|
  {
    if pat <= s {
      ReplaceNoShorter(s[|pat|..], pat, rep);
    } else if s != [] {
      ReplaceNoShorter(s[1..], pat, rep);
    }
  }

  /** Replacing by a shorter literal shortens every string holding the pattern. */
  lemma {:induction false} ReplaceShortens(s: string, pat: string, rep: string)
    requires |pat| > 0 && |rep| < |pat| && Contains(s, pat)
    ensures |Replace(s, pat, rep)| < |s|
    decreases |s|
  {
    if pat <= s {
      ReplaceNoLonger(s[|pat|..], pat, rep);
    } else {
      ReplaceShortens(s[1..], pat, rep);
    }
  }

  /** Replacing by an equally long literal keeps the length. */
  lemma {:induction false} ReplaceKeepsLength(s: string, pat: string, rep: string)
    requires |pat| > 0 && |rep| == |pat|
    ensures |Replace(s, pat, rep)| == |s|
  {
    ReplaceNoLonger(s, pat, rep);
    ReplaceNoShorter(s, pat, rep);
  }

  /** `replace` by a different literal changes every string that holds the
      pattern; together with ReplaceAbsent: `s.replace(pat, rep) == s` exactly
      when `pat not in s`. */
  lemma {:induction false} ReplaceChanges(s: string, pat: string, rep: string)
    requires |pat| > 0 && rep != pat && Contains(s, pat)
    ensures Replace(s, pat, rep) != s
    decreases |s|
  {
    if pat <= s {
      var t := s[|pat|..];
      if |rep| < |pat| {
        ReplaceNoLonger(t, pat, rep);
      } else if |rep| > |pat| {
        ReplaceNoShorter(t, pat, rep);
      } else {
        var r := Replace(s, pat, rep);
        assert r[..|rep|] == rep;
        assert s[..|pat|] == pat;
      }
    } else {
      ReplaceChanges(s[1..], pat, rep);
      var r := Replace(s, pat, rep);
      assert r[1..] == Replace(s[1..], pat, rep);
    }
  }

  /** `s.replace(c, d)` for one character each: a character-by-character map. */
  lemma {:induction false} ReplaceChar(s: string, c: char, d: char)
    ensures |Replace(s, [c], [d])| == |s|
    ensures forall i :: 0 <= i < |s| ==>
      Replace(s, [c], [d])[i] == if s[i] == c then d else s[i]
    decreases |s|
  {
    if s != [] {
      ReplaceChar(s[1..], c, d);
      var r := Replace(s, [c], [d]);
      var t := Replace(s[1..], [c], [d]);
      assert r == [if s[0] == c then d else s[0]] + t by {
        if [c] <= s { assert s[0] == c; } else { assert s[0] != c; }
      }
      forall i | 0 <= i < |s| ensures r[i] == if s[i] == c then d else s[i] {
        if i > 0 { assert r[i] == t[i - 1]; assert s[i] == s[1..][i - 1]; }
      }
    }
  }

  /** When the pattern's first character does not recur in it, an occurrence
      that ends a string cannot overlap an earlier one: `(stem + pat).replace(pat, rep)`
      is `stem + rep` for every stem without the pattern. */
  lemma {:induction false} ReplaceAtEnd(stem: string, pat: string, rep: string)
    requires |pat| > 0 && pat[0] !in pat[1..]
    requires !Contains(stem, pat)
    ensures Replace(stem + pat, pat, rep) == stem + rep
    decreases |stem|
  {
    var s := stem + pat;
    if stem == [] {
      assert s == pat;
      assert s[|pat|..] == [];
      assert Replace([], pat, rep) == [];
    } else {
      NoEarlyMatch(stem, pat);
      assert !Contains(stem[1..], pat);
      ReplaceAtEnd(stem[1..], pat, rep);
      assert s[1..] == stem[1..] + pat;
      assert s[0] == stem[0];
      calc {
        Replace(s, pat, rep);
        [s[0]] + Replace(s[1..], pat, rep);
        [stem[0]] + (stem[1..] + rep);
        { assert stem == [stem[0]] + stem[1..]; }
        stem + rep;
      }
    }
  }

  lemma NoEarlyMatch(stem: string, pat: string)
    requires |pat| > 0 && pat[0] !in pat[1..]
    requires stem != [] && !(pat <= stem)
    ensures !(pat <= stem + pat)
  {
    var s := stem + pat;
    if |stem| >= |pat| {
      assert s[..|pat|] == stem[..|pat|];
    } else {
      assert s[|stem|] == pat[0];
      assert pat[|stem|] == pat[1..][|stem| - 1];
      assert s[|stem|] != pat[|stem|];
    }
  }

  // ---------------------------------------------------------------------------
  // Counting characters
  // ---------------------------------------------------------------------------

  function CountChar(s: string, c: char): nat
    decreases |s|
  {
    if s == [] then 0 else (if s[0] == c then 1 else 0) + CountChar(s[1..], c)
  }

  lemma {:induction false} CountCharAppend(a: string, b: string, c: char)
    ensures CountChar(a + b, c) == CountChar(a, c) + CountChar(b, c)
    decreases |a|
  {
    if a == [] {
      assert a + b == b;
    } else {
      assert (a + b)[1..] == a[1..] + b;
      CountCharAppend(a[1..], b, c);
    }
  }

  lemma {:induction false} CountCharAbsent(s: string, c: char)
    requires c !in s
    ensures CountChar(s, c) == 0
    decreases |s|
  {
    if s != [] {
      assert c !in s[1..];
      CountCharAbsent(s[1..], c);
    }
  }

  // ---------------------------------------------------------------------------
  // Decimal rendering of a non-negative int (`f"{n}"`)
  // ---------------------------------------------------------------------------

  predicate IsDigit(c: char) {
    '0' <= c <= '9'
  }

  function DigitChar(d: nat): (c: char)
    requires d < 10
    ensures IsDigit(c)
  {
    ('0' as int + d) as char
  }

  function DigitValue(c: char): nat
    requires IsDigit(c)
  {
    (c as int - '0' as int) as nat
  }

  /** Decimal digits of `n`, most significant first, no leading zero. */
  function NatToString(n: nat): (r: string)
    ensures |r| >= 1
    ensures forall i :: 0 <= i < |r| ==> IsDigit(r[i])
    ensures r[0] == '0' ==> n == 0
  {
    if n < 10 then [DigitChar(n)]
    else NatToString(n / 10) + [DigitChar(n % 10)]
  }

  /** Reading a string of decimal digits, most significant first. */
  function DecimalValue(s: string): nat
    requires forall i :: 0 <= i < |s| ==> IsDigit(s[i])
    decreases |s|
  {
    if s == [] then 0 else 10 * DecimalValue(s[..|s| - 1]) + DigitValue(s[|s| - 1])
  }

  /** The decimal text of a number reads back as that number, so distinct node
      numbers get distinct names. */
  lemma {:induction false} NatToStringRoundTrip(n: nat)
    ensures DecimalValue(NatToString(n)) == n
  {
    var r := NatToString(n);
    if n >= 10 {
      NatToStringRoundTrip(n / 10);
      assert r[..|r| - 1] == NatToString(n / 10);
    }
  }

  lemma NatToStringInjective(m: nat, n: nat)
    requires m != n
    ensures NatToString(m) != NatToString(n)
  {
    NatToStringRoundTrip(m);
    NatToStringRoundTrip(n);
  }
}
