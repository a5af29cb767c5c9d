/** string.c, and starts_with of the client: loops over NUL-terminated buffers. */
module CString {
  import opened Scanf

  /** The text a buffer holds: everything before its first NUL. */
  function TextOf(buffer: seq<char>): string {
    buffer[..Span(NotNul, buffer)]
  }

  /** The text up to the first CR or LF. */
  function FirstLine(s: string): string {
    s[..Span(BeforeLineEnd, s)]
  }

  lemma {:induction false} SpanIs(k: Class, s: string, n: nat)
    requires n <= |s| && (forall i | 0 <= i < n :: Matches(k, s[i]))
    requires n < |s| ==> !Matches(k, s[n])
    ensures Span(k, s) == n
  {
    if n > 0 {
      SpanIs(k, s[1..], n - 1);
    }
  }

  lemma {:induction false} SpanFacts(k: Class, s: string)
    ensures forall i | 0 <= i < Span(k, s) :: Matches(k, s[i])
    ensures Span(k, s) < |s| ==> !Matches(k, s[Span(k, s)])
  {
    if s != [] && Matches(k, s[0]) {
      SpanFacts(k, s[1..]);
      forall i | 0 <= i < Span(k, s)
        ensures Matches(k, s[i])
      {
        if i > 0 {
          assert s[i] == s[1..][i - 1];
        }
      }
    }
  }

  /** remove_end_line */
  method RemoveEndLine(buffer: array<char>)
    requires '\0' in buffer[..]
    modifies buffer
    ensures TextOf(buffer[..]) == FirstLine(old(TextOf(buffer[..])))
    ensures '\0' in buffer[..]
  {
    ghost var was := buffer[..];
    ghost var n := Span(NotNul, was);
    SpanFacts(NotNul, was);
    var i: nat := 0;
    while i < buffer.Length && buffer[i] != '\0'
      invariant i <= n && buffer[..] == was
      invariant forall j | 0 <= j < i :: Matches(BeforeLineEnd, was[j])
    {
      if buffer[i] == '\r' || buffer[i] == '\n' {
        buffer[i] := '\0';
        break;
      }
      i := i + 1;
    }
    assert i < |was|;
    SpanIs(NotNul, buffer[..], i);
    SpanIs(BeforeLineEnd, was[..n], i);
    assert buffer[..][..i] == was[..i] == was[..n][..i];
    assert buffer[..][i] == '\0';
  }

  /** starts_with */
  method StartsWith(a: string, b: string) returns (yes: bool)
    ensures yes <==> b <= a
  {
    if |b| > |a| {
      return false;
    }
    for i := 0 to |b|
      invariant b[..i] == a[..i]
    {
      if a[i] != b[i] {
        return false;
      }
    }
    yes := true;
  }

  lemma FirstLineIsAll(s: string)
    requires forall c | c in s :: c != '\r' && c != '\n'
    ensures FirstLine(s) == s
  {
    assert forall i | 0 <= i < |s| :: s[i] in s;
    SpanIs(BeforeLineEnd, s, |s|);
  }

  /** The server cuts a datagram twice; the second cut changes nothing. */
  lemma FirstLineTwice(s: string)
    ensures FirstLine(FirstLine(s)) == FirstLine(s)
  {
    SpanFacts(BeforeLineEnd, s);
    SpanIs(BeforeLineEnd, FirstLine(s), |FirstLine(s)|);
  }
}
