/** The C library calls of the modelled code: searching by positions, and strings in buffers of fixed size. */
module CStrings {
  /** The characters before the terminator of a C string. */
  type CString = s: string | '\0' !in s witness ""

  function FindFrom(s: string, c: char, i: nat): (k: nat)
    requires i <= |s|
    ensures i <= k <= |s| && (k < |s| ==> s[k] == c)
    decreases |s| - i
  {
    if i == |s| || s[i] == c then i else FindFrom(s, c, i + 1)
  }

  lemma {:induction false} FindsFirst(s: string, c: char, i: nat)
    requires i <= |s|
    ensures forall j | i <= j < FindFrom(s, c, i) :: s[j] != c
    decreases |s| - i
  {
    if i < |s| && s[i] != c {
      FindsFirst(s, c, i + 1);
    }
  }

  /** A place where c stands, with none before it from i on, is the place found. */
  lemma {:induction false} FoundAt(s: string, c: char, i: nat, k: nat)
    requires i <= k <= |s| && (k < |s| ==> s[k] == c) && forall j | i <= j < k :: s[j] != c
    ensures FindFrom(s, c, i) == k
    decreases k - i
  {
    if i < k {
      FoundAt(s, c, i + 1, k);
    }
  }

  /** strchr: the place of the first c, or the length if there is none. */
  function Find(s: string, c: char): (k: nat)
    ensures k <= |s| && (k < |s| ==> s[k] == c)
  {
    FindFrom(s, c, 0)
  }

  lemma FindSlice(s: string, c: char, lo: nat, hi: nat)
    requires lo <= hi <= |s|
    ensures lo + Find(s[lo..hi], c) == if FindFrom(s, c, lo) < hi then FindFrom(s, c, lo) else hi
  {
    var k := if FindFrom(s, c, lo) < hi then FindFrom(s, c, lo) - lo else hi - lo;
    FindsFirst(s, c, lo);
    FoundAt(s[lo..hi], c, 0, k);
  }

  /** The C string at a position of a buffer: up to the first terminator, which stands at end. */
  method Read(a: array<char>, i: nat, ghost end: nat) returns (text: string)
    requires i <= end < a.Length && a[end] == '\0' && forall j | i <= j < end :: a[j] != '\0'
    ensures text == a[i..end]
  {
    var n := i;
    while a[n] != '\0'
      invariant i <= n <= end
      decreases end - n
    {
      n := n + 1;
    }
    text := a[i..n];
  }

  /** strncat after the n characters the buffer has */
  method Strncat(a: array<char>, n: nat, text: string)
    requires n + |text| < a.Length
    modifies a
    ensures a[..n + |text|] == old(a[..n]) + text && a[n + |text|] == '\0'
  {
    for i := 0 to |text|
      invariant a[..n + i] == old(a[..n]) + text[..i]
    {
      a[n + i] := text[i];
    }
    a[n + |text|] := '\0';
  }

  /** The buffer holds s from position i on, up to its terminator. */
  ghost predicate Buffers(a: array<char>, s: string, i: nat)
    reads a
  {
    i <= |s| < a.Length && a[|s|] == '\0' && '\0' !in s && forall j | i <= j < |s| :: a[j] == s[j]
  }

  lemma BuffersAll(a: array<char>, s: string)
    requires |s| < a.Length && a[..|s|] == s && a[|s|] == '\0' && '\0' !in s
    ensures Buffers(a, s, 0)
  {
    forall j | 0 <= j < |s| ensures a[j] == s[j] {
      assert a[..|s|][j] == s[j];
    }
  }

  /** strchr in a buffer; the terminator's place if there is none. */
  method Strchr(a: array<char>, i: nat, c: char, ghost s: string) returns (end: nat)
    requires Buffers(a, s, i) && c != '\0'
    ensures end == FindFrom(s, c, i)
  {
    hide FindFrom;
    end := i;
    while a[end] != '\0' && a[end] != c
      invariant i <= end <= |s|
      invariant forall j | i <= j < end :: s[j] != c
      decreases |s| - end
    {
      end := end + 1;
    }
    FoundAt(s, c, i, end);
  }
}
