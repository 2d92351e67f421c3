/** Bounded output (src/lib/stdio.c:25-52): the characters that formatting produces go through a helper that
    stores as many as fit. */
module Snprintf {
  /** What the buffer of n characters holds after output of s: as much of s as leaves room for a terminator, the
      terminator, and beyond that what was there before. */
  function Bounded(before: string, n: nat, s: string): (after: string)
    requires n <= |before|
    ensures |after| == |before|
  {
    if n == 0 then before else
    var k := if |s| < n then |s| else n - 1;
    s[..k] + ['\0'] + before[k + 1..]
  }

  /** The first p characters of s, then what was there before. */
  ghost predicate Stored(b: string, before: string, s: string, p: nat)
  {
    p <= |s| && p <= |before| && b == s[..p] + before[p..]
  }

  /** vsnprintf with its helper, over the characters that __vprintf sends: never outside the n characters, always
      terminated when n > 0, and returning the length of the untruncated output. */
  method Vsnprintf(buffer: array<char>, n: nat, s: string) returns (length: nat)
    requires n <= buffer.Length
    modifies buffer
    ensures length == |s| && buffer[..] == Bounded(old(buffer[..]), n, s)
  {
    ghost var before := buffer[..];
    assert Stored(buffer[..], before, s, 0);
    hide Stored, Bounded;
    var p: nat, maxLength := 0, if n > 0 then n - 1 else 0;
    length := 0;
    while length < |s|
      invariant length <= |s| && p == (if length < maxLength then length else maxLength)
      invariant Stored(buffer[..], before, s, p)
    {
      if length < maxLength {
        Put(buffer, p, s, before);
        p := p + 1;
      }
      length := length + 1;
    }
    Terminate(buffer, n, p, s, before);
  }

  /** vsnprintf_helper when there is room. */
  method Put(buffer: array<char>, p: nat, s: string, ghost before: string)
    requires p < buffer.Length && p < |s| && |before| == buffer.Length && Stored(buffer[..], before, s, p)
    modifies buffer
    ensures Stored(buffer[..], before, s, p + 1)
  {
    buffer[p] := s[p];
    assert buffer[..] == (s[..p] + before[p..])[p := s[p]];
  }

  method Terminate(buffer: array<char>, n: nat, p: nat, s: string, ghost before: string)
    requires n <= buffer.Length == |before| && Stored(buffer[..], before, s, p)
    requires p == if n == 0 then 0 else if |s| < n then |s| else n - 1
    modifies buffer
    ensures buffer[..] == Bounded(before, n, s)
  {
    if n > 0 {
      buffer[p] := '\0';
      assert buffer[..] == (s[..p] + before[p..])[p := '\0'];
    }
  }

  /** Output that fits is stored whole; output that does not is a proper prefix, and its returned length says so. */
  lemma Truncation(before: string, n: nat, s: string)
    requires 0 < n <= |before|
    ensures var a := Bounded(before, n, s); exists k: nat | k < n && k <= |s| :: a[k] == '\0' && a[..k] == s[..k] && (k == |s| <==> |s| < n)
  {
    var k := if |s| < n then |s| else n - 1;
    var a := Bounded(before, n, s);
    assert a[k] == '\0' && a[..k] == s[..k];
  }
}
