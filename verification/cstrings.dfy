/** Character classes, bounded copies, comparison and search-and-replace over
    C strings, which are modelled as character sequences without the
    terminating NUL. A C buffer of `size` bytes holds at most `size - 1`
    characters; every bounded copy below says so through `Truncate`. */
module CStrings {
  import opened Optional

  /** isspace () in the C locale: space, \t, \n, \v, \f and \r. */
  predicate IsSpace(c: char)
  {
    c == ' ' || ('\t' <= c <= '\r')
  }

  /** isdigit () in the C locale. */
  predicate IsDigit(c: char)
  {
    '0' <= c <= '9'
  }

  /** isalnum () in the C locale. */
  predicate IsAlnum(c: char)
  {
    IsDigit(c) || ('a' <= c <= 'z') || ('A' <= c <= 'Z')
  }

  function Min(a: int, b: int): int
  {
    if a <= b then a else b
  }

  /** The first `n` characters of `s`, or all of `s` when it is shorter: what a
      bounded copy into a buffer of n + 1 bytes keeps. */
  function Truncate(s: string, n: nat): (r: string)
    ensures |r| == Min(|s|, n)
    ensures r <= s
    ensures |s| <= n ==> r == s
  {
    s[..Min(|s|, n)]
  }

  /** Truncating a concatenation whose first part fits keeps that part whole. */
  lemma TruncateAppend(a: string, b: string, n: nat)
    requires |a| <= n
    ensures Truncate(a + b, n) == a + Truncate(b, n - |a|)
  {
    assert (a + b)[..Min(|a + b|, n)] == a + b[..Min(|b|, n - |a|)];
  }

  /** Truncating a concatenation whose first part already fills the room
      drops the second part. */
  lemma TruncateAppendFull(a: string, b: string, n: nat)
    requires n <= |a|
    ensures Truncate(a + b, n) == Truncate(a, n)
  {
    assert (a + b)[..n] == a[..n];
  }

  /** Index of the first character at or after `from` that is not white space:
      the SKIP_WHITE_SPACE macro and the leading-space skip of strtol/strtod. */
  function SkipSpace(s: string, from: nat): (i: nat)
    requires from <= |s|
    ensures from <= i <= |s|
    ensures forall k :: from <= k < i ==> IsSpace(s[k])
    ensures i < |s| ==> !IsSpace(s[i])
    decreases |s| - from
  {
    if from < |s| && IsSpace(s[from]) then SkipSpace(s, from + 1) else from
  }

  /** Length of `s` once trailing white space is removed: the backwards scan of
      long_value and double_value (kryten/utilities.c:191-195). */
  function TrimEnd(s: string): (e: nat)
    ensures e <= |s|
    ensures forall k :: e <= k < |s| ==> IsSpace(s[k])
    ensures e > 0 ==> !IsSpace(s[e - 1])
  {
    if |s| > 0 && IsSpace(s[|s| - 1]) then TrimEnd(s[..|s| - 1]) else |s|
  }

  /** Sign of strcmp (a, b): characters are compared by code and a proper
      prefix is smaller than the longer string. */
  function Compare(a: string, b: string): (r: int)
    ensures -1 <= r <= 1
    ensures r == 0 <==> a == b
  {
    if |a| == 0 then (if |b| == 0 then 0 else -1)
    else if |b| == 0 then 1
    else if a[0] < b[0] then -1
    else if b[0] < a[0] then 1
    else Compare(a[1..], b[1..])
  }

  /** Sign of strncmp (a, b, n): only the first n characters take part. */
  function StrNCmp(a: string, b: string, n: nat): int
  {
    Compare(Truncate(a, n), Truncate(b, n))
  }

  /** Swapping the operands of strcmp negates the answer. */
  lemma {:induction false} CompareAntisymmetric(a: string, b: string)
    ensures Compare(a, b) == -Compare(b, a)
    decreases |a|
  {
    if |a| > 0 && |b| > 0 && a[0] == b[0] {
      CompareAntisymmetric(a[1..], b[1..]);
    }
  }

  /** "strcmp (a, b) <= 0" is transitive, so it orders strings. */
  lemma {:induction false} CompareTransitive(a: string, b: string, c: string)
    requires Compare(a, b) <= 0 && Compare(b, c) <= 0
    ensures Compare(a, c) <= 0
    decreases |a|
  {
    if |a| > 0 && |b| > 0 && |c| > 0 && a[0] == b[0] && b[0] == c[0] {
      CompareTransitive(a[1..], b[1..], c[1..]);
    }
  }

  /** extract (dest, n, src, upto): the characters of src before position
      `upto`, cut to the n - 1 characters the destination can hold.
      (kryten/utilities.c:100-116; contract in krytenApp/utilities.h:69-83) */
  function Extract(src: string, upto: nat, n: nat): (r: string)
    requires upto <= |src|
    requires n >= 1
    ensures |r| <= n - 1
    ensures r <= src[..upto]
    ensures upto <= n - 1 ==> r == src[..upto]
    ensures upto > n - 1 ==> |r| == n - 1
  {
    Truncate(src[..upto], n - 1)
  }

  /** `find` occurs in `s` starting at position k. */
  predicate OccursAt(s: string, find: string, k: nat)
  {
    k + |find| <= |s| && s[k..k + |find|] == find
  }

  /** strstr (s + from, find): the leftmost occurrence at or after `from`. */
  function Find(s: string, find: string, from: nat): (r: Option<nat>)
    requires from <= |s|
    ensures r.Some? ==> from <= r.value && OccursAt(s, find, r.value)
    ensures r.Some? ==> forall k :: from <= k < r.value ==> !OccursAt(s, find, k)
    ensures r.None? ==> forall k :: from <= k <= |s| ==> !OccursAt(s, find, k)
    decreases |s| - from
  {
    if OccursAt(s, find, from) then Some(from)
    else if from == |s| then None
    else Find(s, find, from + 1)
  }

  /** Reference definition of unbounded replace-all: scanning left to right,
      every occurrence of `find` is replaced and scanning resumes just past it,
      so replacement text is never scanned again. */
  function ReplaceAll(s: string, find: string, rep: string): string
    requires |find| > 0
    decreases |s|
  {
    if |s| == 0 then ""
    else if find <= s then rep + ReplaceAll(s[|find|..], find, rep)
    else [s[0]] + ReplaceAll(s[1..], find, rep)
  }

  /** The text substitute () aims at: the replace-all result, or `src` itself
      when `find` is empty. */
  function Replaced(src: string, find: string, rep: string): string
  {
    if |find| == 0 then src else ReplaceAll(src, find, rep)
  }

  /** substitute (dest, n, src, find, replace) as written: an empty `find`
      degenerates to strncpy (dest, src, n - 1); otherwise the strstr loop
      below appends, with the room left checked before each append.
      (kryten/utilities.c:121-173) */
  function Substitute(n: nat, src: string, find: string, rep: string): string
    requires n >= 1
  {
    if |find| == 0 then Truncate(src, n - 1)
    else SubstituteLoop(n, src, find, rep, "", 0)
  }

  /** One turn of the while loop of substitute (): `dest` is what has been
      written so far and `from` is where the search resumes in `src`. */
  function SubstituteLoop(n: nat, src: string, find: string, rep: string,
                          dest: string, from: nat): string
    requires n >= 1 && |find| > 0
    requires from <= |src| && |dest| <= n - 1
    decreases |src| - from
  {
    match Find(src, find, from)
    case None =>
      dest + Truncate(src[from..], n - 1 - |dest|)
    case Some(p) =>
      if n - 1 - |dest| == 0 then dest
      else
        var head := dest + Truncate(src[from..p], n - 1 - |dest|);
        if n - 1 - |head| == 0 then head
        else SubstituteLoop(n, src, find, rep, head + Truncate(rep, n - 1 - |head|), p + |find|)
  }

  /** A prefix test on a suffix is an occurrence test. */
  lemma PrefixIsOccurrence(s: string, find: string, k: nat)
    requires k <= |s|
    ensures find <= s[k..] <==> OccursAt(s, find, k)
  {
    if k + |find| <= |s| {
      assert s[k..][..|find|] == s[k..k + |find|];
    }
  }

  /** With no occurrence of `find` in s[from..], replace-all is the identity. */
  lemma {:induction false} ReplaceAllWithoutOccurrence(s: string, find: string, rep: string, from: nat)
    requires |find| > 0 && from <= |s|
    requires forall k :: from <= k <= |s| ==> !OccursAt(s, find, k)
    ensures ReplaceAll(s[from..], find, rep) == s[from..]
    decreases |s| - from
  {
    if from < |s| {
      PrefixIsOccurrence(s, find, from);
      ReplaceAllWithoutOccurrence(s, find, rep, from + 1);
      assert s[from..][1..] == s[from + 1..];
      assert s[from..] == [s[from]] + s[from + 1..];
    }
  }

  /** Replace-all over s[from..] whose leftmost occurrence is at p: the text
      before p is kept, the occurrence replaced, and the rest handled alike. */
  lemma {:induction false} ReplaceAllAtLeftmost(s: string, find: string, rep: string, from: nat, p: nat)
    requires |find| > 0 && from <= p
    requires OccursAt(s, find, p)
    requires forall k :: from <= k < p ==> !OccursAt(s, find, k)
    ensures ReplaceAll(s[from..], find, rep) == s[from..p] + rep + ReplaceAll(s[p + |find|..], find, rep)
    decreases p - from
  {
    var t := s[from..];
    PrefixIsOccurrence(s, find, from);
    if from == p {
      ReplaceAllHit(t, find, rep);
      assert t[|find|..] == s[p + |find|..];
      assert s[from..p] == [];
    } else {
      ReplaceAllMiss(t, find, rep);
      assert t[1..] == s[from + 1..];
      ReplaceAllAtLeftmost(s, find, rep, from + 1, p);
      assert s[from..p] == [s[from]] + s[from + 1..p];
    }
  }

  /** Replace-all replaces an occurrence at the very start ... */
  lemma ReplaceAllHit(t: string, find: string, rep: string)
    requires |find| > 0 && find <= t
    ensures ReplaceAll(t, find, rep) == rep + ReplaceAll(t[|find|..], find, rep)
  {
  }

  /** ... and otherwise keeps the first character. */
  lemma ReplaceAllMiss(t: string, find: string, rep: string)
    requires |find| > 0 && |t| > 0 && !(find <= t)
    ensures ReplaceAll(t, find, rep) == [t[0]] + ReplaceAll(t[1..], find, rep)
  {
  }

  /** Cutting the middle part to the room a cut of the whole leaves changes
      nothing. */
  lemma TruncateMiddle(h: string, r: string, t: string, m: nat)
    requires |h| <= m
    ensures Truncate(h + Truncate(r, m - |h|) + t, m) == Truncate(h + r + t, m)
  {
    var k := m - |h|;
    assert h + Truncate(r, k) + t == h + (Truncate(r, k) + t);
    assert h + r + t == h + (r + t);
    TruncateAppend(h, Truncate(r, k) + t, m);
    TruncateAppend(h, r + t, m);
    if |r| <= k {
      assert Truncate(r, k) == r;
    } else {
      TruncateAppendFull(Truncate(r, k), t, k);
      TruncateAppendFull(r, t, k);
    }
  }

  /** The loop of substitute () computes the replace-all of the unsearched
      rest of `src`, appended to what was already written and cut to the
      room of the buffer. */
  lemma {:induction false} SubstituteLoopIsBounded(n: nat, src: string, find: string, rep: string,
                                                   dest: string, from: nat)
    requires n >= 1 && |find| > 0
    requires from <= |src| && |dest| <= n - 1
    ensures SubstituteLoop(n, src, find, rep, dest, from)
            == Truncate(dest + ReplaceAll(src[from..], find, rep), n - 1)
    decreases |src| - from, 2
  {
    match Find(src, find, from)
    case None =>
      ReplaceAllWithoutOccurrence(src, find, rep, from);
      TruncateAppend(dest, src[from..], n - 1);
    case Some(p) =>
      ReplaceAllAtLeftmost(src, find, rep, from, p);
      SubstituteStep(n, src, find, rep, dest, from, p);
  }

  /** The case of SubstituteLoopIsBounded where an occurrence is found at p. */
  lemma {:induction false} SubstituteStep(n: nat, src: string, find: string, rep: string,
                                          dest: string, from: nat, p: nat)
    requires n >= 1 && |find| > 0
    requires from <= |src| && |dest| <= n - 1
    requires Find(src, find, from) == Some(p)
    ensures SubstituteLoop(n, src, find, rep, dest, from)
            == Truncate(dest + (src[from..p] + rep + ReplaceAll(src[p + |find|..], find, rep)), n - 1)
    decreases |src| - from, 1
  {
    var tail := ReplaceAll(src[p + |find|..], find, rep);
    var whole := src[from..p] + rep + tail;
    if |dest| == n - 1 {
      assert SubstituteLoop(n, src, find, rep, dest, from) == dest;
      TruncateAppendFull(dest, whole, n - 1);
    } else if |src[from..p]| >= n - 1 - |dest| {
      SubstituteHeadFull(n, src, find, rep, dest, from, p, tail);
    } else {
      SubstituteRecurse(n, src, find, rep, dest, from, p);
    }
  }

  /** The sub-case of SubstituteStep where the search goes on after the
      occurrence. */
  lemma {:induction false} SubstituteRecurse(n: nat, src: string, find: string, rep: string,
                                             dest: string, from: nat, p: nat)
    requires n >= 1 && |find| > 0
    requires from <= |src| && |dest| < n - 1
    requires Find(src, find, from) == Some(p)
    requires |src[from..p]| < n - 1 - |dest|
    ensures SubstituteLoop(n, src, find, rep, dest, from)
            == Truncate(dest + (src[from..p] + rep + ReplaceAll(src[p + |find|..], find, rep)), n - 1)
    decreases |src| - from, 0
  {
    var mid := src[from..p];
    var written := dest + mid + Truncate(rep, n - 1 - |dest + mid|);
    SubstituteUnfold(n, src, find, rep, dest, from, p);
    SubstituteLoopIsBounded(n, src, find, rep, written, p + |find|);
    TruncateMiddleRegroup(dest, mid, rep, ReplaceAll(src[p + |find|..], find, rep), n - 1);
  }

  /** TruncateMiddle with the text before the middle part in two pieces. */
  lemma TruncateMiddleRegroup(dest: string, mid: string, rep: string, tail: string, m: nat)
    requires |dest + mid| <= m
    ensures Truncate(dest + mid + Truncate(rep, m - |dest + mid|) + tail, m)
            == Truncate(dest + (mid + rep + tail), m)
  {
    TruncateMiddle(dest + mid, rep, tail, m);
    assert dest + (mid + rep + tail) == dest + mid + rep + tail;
  }

  /** One unfolding of the loop when the occurrence fits with room to spare. */
  lemma SubstituteUnfold(n: nat, src: string, find: string, rep: string,
                         dest: string, from: nat, p: nat)
    requires n >= 1 && |find| > 0
    requires from <= |src| && |dest| < n - 1
    requires Find(src, find, from) == Some(p)
    requires |src[from..p]| < n - 1 - |dest|
    ensures p + |find| <= |src|
    ensures |dest + src[from..p]| < n - 1
    ensures SubstituteLoop(n, src, find, rep, dest, from)
         == SubstituteLoop(n, src, find, rep, dest + src[from..p] + Truncate(rep, n - 1 - |dest + src[from..p]|), p + |find|)
  {
    var head := dest + Truncate(src[from..p], n - 1 - |dest|);
    assert head == dest + src[from..p];
    assert n - 1 - |head| != 0;
  }

  /** The sub-case of SubstituteStep where the text before the occurrence
      fills the buffer. */
  lemma SubstituteHeadFull(n: nat, src: string, find: string, rep: string,
                           dest: string, from: nat, p: nat, tail: string)
    requires n >= 1 && |find| > 0
    requires from <= |src| && |dest| < n - 1
    requires Find(src, find, from) == Some(p)
    requires |src[from..p]| >= n - 1 - |dest|
    ensures SubstituteLoop(n, src, find, rep, dest, from)
            == Truncate(dest + (src[from..p] + rep + tail), n - 1)
  {
    var room := n - 1 - |dest|;
    var head := dest + Truncate(src[from..p], room);
    assert |head| == n - 1;
    assert SubstituteLoop(n, src, find, rep, dest, from) == head;
    TruncateAppend(dest, src[from..p] + rep + tail, n - 1);
    assert src[from..p] + rep + tail == src[from..p] + (rep + tail);
    TruncateAppendFull(src[from..p], rep + tail, room);
  }

  /** substitute () writes the first n - 1 characters of the unbounded
      replace-all result: every occurrence left to right, replacement text
      never rescanned, and at most n bytes including the terminator.
      (kryten/utilities.c:134-172; krytenApp/utilities.h:86-94) */
  lemma SubstituteIsBoundedReplaceAll(n: nat, src: string, find: string, rep: string)
    requires n >= 1
    ensures Substitute(n, src, find, rep) == Truncate(Replaced(src, find, rep), n - 1)
    ensures |Substitute(n, src, find, rep)| <= n - 1
    ensures Substitute(n, src, find, rep) <= Replaced(src, find, rep)
  {
    if |find| > 0 {
      SubstituteLoopIsBounded(n, src, find, rep, "", 0);
      assert src[0..] == src;
    }
  }

  /** With an empty `find`, or no occurrence of it, substitute () behaves like
      strncpy (dest, src, n - 1). (krytenApp/utilities.h:96-97) */
  lemma SubstituteWithoutOccurrence(n: nat, src: string, find: string, rep: string)
    requires n >= 1
    requires forall k :: 0 <= k <= |src| ==> !OccursAt(src, find, k)
    ensures Substitute(n, src, find, rep) == Truncate(src, n - 1)
  {
    SubstituteIsBoundedReplaceAll(n, src, find, rep);
    if |find| > 0 {
      ReplaceAllWithoutOccurrence(src, find, rep, 0);
      assert src[0..] == src;
    }
  }

  /** Number of non-overlapping occurrences that replace-all rewrites. */
  function Occurrences(s: string, find: string): nat
    requires |find| > 0
    decreases |s|
  {
    if |s| == 0 then 0
    else if find <= s then 1 + Occurrences(s[|find|..], find)
    else Occurrences(s[1..], find)
  }

  /** Each rewritten occurrence changes the length by |rep| - |find|. */
  lemma {:induction false} ReplaceAllLength(s: string, find: string, rep: string)
    requires |find| > 0
    ensures |ReplaceAll(s, find, rep)| == |s| + Occurrences(s, find) * (|rep| - |find|)
    decreases |s|
  {
    if |s| > 0 {
      if find <= s {
        ReplaceAllHit(s, find, rep);
        ReplaceAllLength(s[|find|..], find, rep);
        MultiplyOneMore(Occurrences(s[|find|..], find), |rep| - |find|);
      } else {
        ReplaceAllMiss(s, find, rep);
        ReplaceAllLength(s[1..], find, rep);
      }
    }
  }

  lemma MultiplyOneMore(k: int, d: int)
    ensures (1 + k) * d == d + k * d
  {
  }

  /** Replacement text is emitted once and never rescanned: even when `rep`
      contains `find`, the scan resumes in the source after the occurrence. */
  lemma ReplacementNotRescanned(find: string, rep: string, rest: string)
    requires |find| > 0
    ensures ReplaceAll(find + rest, find, rep) == rep + ReplaceAll(rest, find, rep)
  {
    assert find <= find + rest;
    assert (find + rest)[|find|..] == rest;
  }
}
