/** Python string operations the program relies on: `sub in s`, the leftmost
    occurrence of a separator, and `s.split(sep)` for a non-empty separator.
    Python's split scans left to right and cuts at non-overlapping occurrences,
    so `"aaa".split("aa")` is `["", "a"]`; the definitions below do the same.
 */
module PyStr {
  import opened Wrappers

  /** `sep` occurs in `s` starting at index `i`. */
  predicate OccursAt(s: string, sep: string, i: nat) {
    i + |sep| <= |s| && s[i..i + |sep|] == sep
  }

  /** The leftmost occurrence of `sep` in `s` at or after index `k`. */
  function FindFrom(s: string, sep: string, k: nat): (r: Option<nat>)
    ensures r.Some? ==> k <= r.value && OccursAt(s, sep, r.value)
    ensures r.Some? ==> forall j :: k <= j < r.value ==> !OccursAt(s, sep, j)
    ensures r.None? ==> forall j :: k <= j ==> !OccursAt(s, sep, j)
    decreases |s| - k
  {
    if k + |sep| > |s| then None
    else if s[k..k + |sep|] == sep then Some(k)
    else FindFrom(s, sep, k + 1)
  }

  /** Python's `s.find(sep)`, with -1 written as None. */
  function Find(s: string, sep: string): (r: Option<nat>)
    ensures r.Some? ==> OccursAt(s, sep, r.value)
    ensures r.Some? ==> forall j :: 0 <= j < r.value ==> !OccursAt(s, sep, j)
    ensures r.None? ==> forall j :: 0 <= j ==> !OccursAt(s, sep, j)
  {
    FindFrom(s, sep, 0)
  }

  /** Python's `sep in s`. */
  predicate Contains(s: string, sep: string) {
    Find(s, sep).Some?
  }

  /** The inverse of split: `sep.join(parts)`. */
  function Join(parts: seq<string>, sep: string): string {
    if |parts| == 0 then ""
    else if |parts| == 1 then parts[0]
    else parts[0] + sep + Join(parts[1..], sep)
  }

  /** Python's `s.split(sep)` for a non-empty separator (an empty one raises
      ValueError in Python; every separator in the program is a non-empty literal). */
  function Split(s: string, sep: string): (r: seq<string>)
    requires |sep| > 0
    ensures |r| >= 1
    decreases |s|
  {
    match Find(s, sep)
    case None => [s]
    case Some(i) => [s[..i]] + Split(s[i + |sep|..], sep)
  }

  /** A split yields exactly one part when the separator is absent, so index
      1 exists exactly when the separator occurs. */
  lemma {:induction false} SplitSingle(s: string, sep: string)
    requires |sep| > 0
    ensures |Split(s, sep)| == 1 <==> !Contains(s, sep)
  {
    match Find(s, sep)
    case None =>
    case Some(i) =>
      SplitStep(s, sep, i);
  }

  /** Joining the parts of a split with the separator restores the string. */
  lemma {:induction false} JoinSplit(s: string, sep: string)
    requires |sep| > 0
    ensures Join(Split(s, sep), sep) == s
    decreases |s|
  {
    match Find(s, sep)
    case None =>
    case Some(i) =>
      var tail := s[i + |sep|..];
      JoinSplit(tail, sep);
      SplitStep(s, sep, i);
      JoinCons(s[..i], Split(tail, sep), sep);
      CutAround(s, sep, i);
  }

  /** One step of the split: the text before the leftmost occurrence, then
      the split of the text after it. */
  lemma {:induction false} SplitStep(s: string, sep: string, i: nat)
    requires |sep| > 0
    requires Find(s, sep) == Some(i)
    ensures Split(s, sep) == [s[..i]] + Split(s[i + |sep|..], sep)
  {
    assert OccursAt(s, sep, i);
    var tail := s[i + |sep|..];
    assert Split(s, sep) == [s[..i]] + Split(tail, sep);
  }

  lemma {:induction false} JoinCons(a: string, rest: seq<string>, sep: string)
    requires |rest| >= 1
    ensures Join([a] + rest, sep) == a + sep + Join(rest, sep)
  {
    assert ([a] + rest)[1..] == rest;
  }

  lemma CutAround(s: string, sep: string, i: nat)
    requires OccursAt(s, sep, i)
    ensures s == s[..i] + sep + s[i + |sep|..]
  {
    assert s == s[..i] + s[i..i + |sep|] + s[i + |sep|..];
  }

  /** No part of a split contains the separator. */
  lemma {:induction false} SplitPartsFree(s: string, sep: string)
    requires |sep| > 0
    ensures forall i :: 0 <= i < |Split(s, sep)| ==> !Contains(Split(s, sep)[i], sep)
    decreases |s|
  {
    match Find(s, sep)
    case None =>
    case Some(i) =>
      SplitPartsFree(s[i + |sep|..], sep);
      PrefixFree(s, sep, i);
  }

  /** Python's `parts[k]`, which raises IndexError past the end. */
  function Index(parts: seq<string>, k: nat): (r: Result<string>)
    ensures r.Ok? <==> k < |parts|
    ensures r.Ok? ==> r.value == parts[k]
  {
    if k < |parts| then Ok(parts[k]) else Err
  }

  // ---------------------------------------------------------------------
  // Facts about occurrences
  // ---------------------------------------------------------------------

  /** An occurrence inside a prefix is an occurrence in the whole string. */
  lemma OccursInPrefix(s: string, sep: string, i: nat, j: nat)
    requires i <= |s|
    requires OccursAt(s[..i], sep, j)
    ensures OccursAt(s, sep, j)
  {
    assert s[..i][j..j + |sep|] == s[j..j + |sep|];
  }

  /** No occurrence lies inside the text before the leftmost one. */
  lemma PrefixFree(s: string, sep: string, i: nat)
    requires |sep| > 0
    requires Find(s, sep) == Some(i)
    ensures !Contains(s[..i], sep)
  {
    if Contains(s[..i], sep) {
      var j := Find(s[..i], sep).value;
      OccursInPrefix(s, sep, i, j);
    }
  }

  /** An occurrence with nothing earlier is the leftmost one. */
  lemma FindUnique(s: string, sep: string, k: nat)
    requires OccursAt(s, sep, k)
    requires forall j :: 0 <= j < k ==> !OccursAt(s, sep, j)
    ensures Find(s, sep) == Some(k)
  {
  }

  /** Appending text after the leftmost occurrence does not move it. */
  lemma FindExtend(a: string, b: string, sep: string, i: nat)
    requires Find(a, sep) == Some(i)
    ensures Find(a + b, sep) == Some(i)
  {
    forall j | 0 <= j <= i
      ensures OccursAt(a + b, sep, j) <==> OccursAt(a, sep, j)
    {
      if j + |sep| <= |a| {
        assert (a + b)[j..j + |sep|] == a[j..j + |sep|];
      }
    }
    FindUnique(a + b, sep, i);
  }

  /** A one-character separator occurs exactly where that character is. */
  lemma OccursAtChar(s: string, c: char, j: nat)
    ensures OccursAt(s, [c], j) <==> j < |s| && s[j] == c
  {
    if j < |s| {
      assert s[j..j + 1] == [s[j]];
    }
  }

  /** Python's `c in s` for a one-character string agrees with sequence membership. */
  lemma ContainsChar(s: string, c: char)
    ensures Contains(s, [c]) <==> c in s
  {
    if c in s {
      var j :| 0 <= j < |s| && s[j] == c;
      OccursAtChar(s, c, j);
    }
    if Contains(s, [c]) {
      var j := Find(s, [c]).value;
      OccursAtChar(s, c, j);
    }
  }

  /** An occurrence cannot cover a position holding a character the separator lacks. */
  lemma NoOccurrenceOver(s: string, sep: string, j: nat, p: nat)
    requires OccursAt(s, sep, j)
    requires j <= p < j + |sep|
    ensures s[p] in sep
  {
    assert s[p] == s[j..j + |sep|][p - j];
  }

  /** An occurrence lying inside the slice `s[a..b]` is an occurrence of that slice. */
  lemma OccursInSlice(s: string, sep: string, a: nat, b: nat, j: nat)
    requires a <= j && j + |sep| <= b <= |s|
    requires OccursAt(s, sep, j)
    ensures OccursAt(s[a..b], sep, j - a)
  {
    var u := s[a..b];
    var v := u[j - a..j - a + |sep|];
    forall k | 0 <= k < |sep|
      ensures v[k] == s[j..j + |sep|][k]
    {
      assert v[k] == u[j - a + k];
    }
  }

  // ---------------------------------------------------------------------
  // Facts about split
  // ---------------------------------------------------------------------

  /** Without the separator, split returns the whole string as its only part. */
  lemma {:induction false} SplitAbsent(s: string, sep: string)
    requires |sep| > 0
    requires !Contains(s, sep)
    ensures Split(s, sep) == [s]
  {
  }

  /** Split cuts at the leftmost occurrence and continues after it. */
  lemma {:induction false} SplitLeftmost(a: string, b: string, sep: string)
    requires |sep| > 0
    requires Find(a + sep + b, sep) == Some(|a|)
    ensures Split(a + sep + b, sep) == [a] + Split(b, sep)
  {
    var s := a + sep + b;
    assert s[..|a|] == a;
    assert s[|a| + |sep|..] == b;
  }

  /** Splitting on a character `c` at the first `c`. */
  lemma {:induction false} SplitAtChar(a: string, c: char, b: string)
    requires c !in a
    ensures Split(a + [c] + b, [c]) == [a] + Split(b, [c])
  {
    var s := a + [c] + b;
    forall j | 0 <= j < |a|
      ensures !OccursAt(s, [c], j)
    {
      OccursAtChar(s, c, j);
    }
    OccursAtChar(s, c, |a|);
    FindUnique(s, [c], |a|);
    SplitLeftmost(a, b, [c]);
  }

  /** If no occurrence starts among the first `n` characters of `s`, the
      first part of its split begins with all of them. */
  lemma {:induction false} SplitHeadKeeps(s: string, n: nat, sep: string)
    requires |sep| > 0 && n <= |s|
    requires forall j :: 0 <= j < n ==> !OccursAt(s, sep, j)
    ensures s[..n] <= Split(s, sep)[0] <= s
  {
    SplitHead(s, sep);
    var f := Find(s, sep);
    if f.Some? {
      var i := f.value;
      assert i >= n;
      assert s[..i][..n] == s[..n];
    }
  }

  /** The first part of a split is the text before the leftmost occurrence. */
  lemma {:induction false} SplitHead(s: string, sep: string)
    requires |sep| > 0
    ensures Find(s, sep).None? ==> Split(s, sep)[0] == s
    ensures Find(s, sep).Some? ==> Split(s, sep)[0] == s[..Find(s, sep).value]
  {
  }

  /** Round trip for one-character separators: splitting the join of parts
      that do not contain the separator gives the parts back. */
  lemma {:induction false} SplitJoinChar(parts: seq<string>, c: char)
    requires |parts| >= 1
    requires forall i :: 0 <= i < |parts| ==> c !in parts[i]
    ensures Split(Join(parts, [c]), [c]) == parts
    decreases |parts|
  {
    if |parts| == 1 {
      ContainsChar(parts[0], c);
      SplitAbsent(parts[0], [c]);
    } else {
      SplitJoinChar(parts[1..], c);
      SplitAtChar(parts[0], c, Join(parts[1..], [c]));
      assert parts == [parts[0]] + parts[1..];
    }
  }

  /** Text containing `other` makes any join of it contain `other`. */
  lemma {:induction false} PartInJoin(parts: seq<string>, sep: string, i: nat, other: string)
    requires i < |parts|
    requires Contains(parts[i], other)
    ensures Contains(Join(parts, sep), other)
    decreases |parts|
  {
    if |parts| > 1 {
      var rest := Join(parts[1..], sep);
      if i == 0 {
        ContainsInfix("", parts[0], sep + rest, other);
        assert Join(parts, sep) == "" + parts[0] + (sep + rest);
      } else {
        PartInJoin(parts[1..], sep, i - 1, other);
        ContainsInfix(parts[0] + sep, rest, "", other);
        assert Join(parts, sep) == (parts[0] + sep) + rest + "";
      }
    }
  }

  /** An occurrence inside the middle of `a + m + b` is an occurrence of the whole. */
  lemma ContainsInfix(a: string, m: string, b: string, other: string)
    requires Contains(m, other)
    ensures Contains(a + m + b, other)
  {
    var j := Find(m, other).value;
    var s := a + m + b;
    assert s[|a| + j..|a| + j + |other|] == m[j..j + |other|];
    assert OccursAt(s, other, |a| + j);
  }
}
