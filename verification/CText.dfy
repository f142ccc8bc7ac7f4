/** C strings: a text is what a buffer holds up to a NUL. */
module CText {
  /** The first position of `c`, or the length. */
  function Until(s: string, c: char): (k: nat)
    ensures k <= |s| && c !in s[..k]
    ensures k < |s| ==> s[k] == c
  {
    if s == [] || s[0] == c then 0 else
      var k := Until(s[1..], c);
      assert s[..k + 1] == [s[0]] + s[1..][..k];
      k + 1
  }

  lemma UntilIs(s: string, c: char, k: nat)
    requires k <= |s| && c !in s[..k] && (k < |s| ==> s[k] == c)
    ensures Until(s, c) == k
  {
    if k > 0 {
      assert s[..k] == [s[0]] + s[1..][..k - 1];
      UntilIs(s[1..], c, k - 1);
    }
  }

  /** The text that the address of position `at` of a buffer stands for: up to the next NUL. */
  function TextAt(buf: string, at: nat): string
    requires at <= |buf|
  {
    buf[at..at + Until(buf[at..], '\0')]
  }

  /** strlcpy to position `at`: copies what fits before the end of the buffer and a NUL. */
  method CopyText(buf: array<char>, at: nat, src: string)
    requires at < buf.Length
    modifies buf
    ensures var n := if |src| < buf.Length - at then |src| else buf.Length - at - 1;
            buf[..] == old(buf[..at]) + src[..n] + ['\0'] + old(buf[at + n + 1..])
  {
    var k := 0;
    while k < |src| && k < buf.Length - at - 1
      invariant k <= |src| && k <= buf.Length - at - 1
      invariant buf[..at] == old(buf[..at])
      invariant buf[at..at + k] == src[..k]
      invariant buf[at + k..] == old(buf[at + k..])
    {
      buf[at + k] := src[k];
      k := k + 1;
    }
    ghost var rest := buf[at + k..];
    buf[at + k] := '\0';
    assert buf[at + k + 1..] == rest[1..] == old(buf[at + k + 1..]);
    assert buf[..] == buf[..at] + buf[at..at + k] + [buf[at + k]] + buf[at + k + 1..];
  }

  /** strlcat: appends at the first NUL. */
  method AppendText(buf: array<char>, src: string)
    requires '\0' in buf[..]
    modifies buf
    ensures var at := |old(TextAt(buf[..], 0))|;
            var n := if |src| < buf.Length - at then |src| else buf.Length - at - 1;
            at < buf.Length &&
            buf[..] == old(buf[..at]) + src[..n] + ['\0'] + old(buf[at + n + 1..])
  {
    var at := 0;
    ghost var nul :| 0 <= nul < buf.Length && buf[nul] == '\0';
    while buf[at] != '\0'
      invariant at <= nul && '\0' !in buf[..at]
      decreases nul - at
    {
      at := at + 1;
    }
    assert buf[..][0..] == buf[..];
    UntilIs(buf[..], '\0', at);
    CopyText(buf, at, src);
  }

  /** From position `at` a buffer holds `text` and a NUL. */
  predicate Holds(buf: string, at: nat, text: string) {
    at + |text| < |buf| && '\0' !in text && buf[at..at + |text|] == text && buf[at + |text|] == '\0'
  }

  lemma HoldsText(buf: string, at: nat, text: string)
    requires Holds(buf, at, text)
    ensures TextAt(buf, at) == text && '\0' in buf
  {
    assert buf[at..][..|text|] == text;
    UntilIs(buf[at..], '\0', |text|);
  }

  lemma HoldsFrame(a: string, b: string, at: nat, text: string, n: nat)
    requires Holds(a, at, text) && at + |text| < n <= |a| == |b| && a[..n] == b[..n]
    ensures Holds(b, at, text)
  {
    assert b[at..at + |text|] == b[..n][at..at + |text|] == a[..n][at..at + |text|] == text;
    assert b[at + |text|] == b[..n][at + |text|] == a[..n][at + |text|];
  }

  method Append(buf: array<char>, ghost text: string, src: string)
    requires Holds(buf[..], 0, text) && '\0' !in src && |text| + |src| < buf.Length
    modifies buf
    ensures Holds(buf[..], 0, text + src)
  {
    HoldsText(buf[..], 0, text);
    AppendText(buf, src);
    assert buf[..][..|text + src|] == text + src;
  }
}
