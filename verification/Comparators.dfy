/** The comparators main.c hands to its three trees. A record or a group is keyed by its
    name, a session by its address. */
module Comparators {
  import opened TreeModel

  /** The `ip` and `port` fields of a session: the dotted text and the raw sin_port. */
  datatype Address = Address(ip: string, port: int)

  /** strcmp: the difference at the first place where the texts differ, the terminating NUL
      included. */
  function StrCmp(a: string, b: string): int {
    if a == [] && b == [] then 0
    else if a == [] then -1 - (b[0] as int)
    else if b == [] then 1 + (a[0] as int)
    else if a[0] != b[0] then a[0] as int - b[0] as int
    else StrCmp(a[1..], b[1..])
  }

  function DataCmp(a: string, b: string): int {
    StrCmp(a, b)
  }

  function GroupCmp(a: string, b: string): int {
    StrCmp(a, b)
  }

  function SessionCmp(a: Address, b: Address): int {
    var ipCmp := StrCmp(a.ip, b.ip);
    if ipCmp != 0 then ipCmp else a.port - b.port
  }

  /** Dictionary order: a proper prefix comes first, and otherwise the first character that
      differs decides. */
  ghost predicate Before(a: string, b: string) {
    || (|a| < |b| && b[..|a|] == a)
    || exists i | 0 <= i < |a| && i < |b| :: a[..i] == b[..i] && a[i] < b[i]
  }

  lemma BeforeByTail(a: string, b: string)
    requires a != [] && b != [] && a[0] == b[0]
    ensures Before(a, b) <==> Before(a[1..], b[1..])
  {
    var x, y := a[1..], b[1..];
    assert forall i | 0 <= i <= |x| :: a[..i + 1] == [a[0]] + x[..i];
    assert forall i | 0 <= i <= |y| :: b[..i + 1] == [b[0]] + y[..i];
    if i :| 0 <= i < |a| && i < |b| && a[..i] == b[..i] && a[i] < b[i] {
      assert x[..i - 1] == a[1..i] == b[1..i] == y[..i - 1] && x[i - 1] < y[i - 1];
    }
    if i :| 0 <= i < |x| && i < |y| && x[..i] == y[..i] && x[i] < y[i] {
      assert a[..i + 1] == b[..i + 1] && a[i + 1] < b[i + 1];
    }
    if |a| < |b| && b[..|a|] == a {
      assert y[..|x|] == b[1..|a|] == x;
    }
    if |x| < |y| && y[..|x|] == x {
      assert b[..|a|] == [b[0]] + y[..|x|] == [a[0]] + x == a;
    }
  }

  /** strcmp decides dictionary order. */
  lemma {:induction false} StrCmpIsDictionaryOrder(a: string, b: string)
    ensures StrCmp(a, b) < 0 <==> Before(a, b)
    ensures StrCmp(a, b) > 0 <==> Before(b, a)
    ensures StrCmp(a, b) == 0 <==> a == b
  {
    StrCmpSigns(a, b);
    if a != [] && b != [] && a[0] == b[0] {
      StrCmpIsDictionaryOrder(a[1..], b[1..]);
      BeforeByTail(a, b);
      BeforeByTail(b, a);
    } else if a != [] && b != [] {
      assert a[..0] == b[..0];
      assert forall i | 0 < i <= |a| && i <= |b| :: a[..i][0] != b[..i][0];
    }
  }

  lemma {:induction false} StrCmpSigns(a: string, b: string)
    ensures StrCmp(a, b) == 0 <==> a == b
    ensures StrCmp(a, b) == -StrCmp(b, a)
  {
    if a != [] && b != [] && a[0] == b[0] {
      StrCmpSigns(a[1..], b[1..]);
      assert a == [a[0]] + a[1..] && b == [b[0]] + b[1..];
    }
  }

  lemma {:induction false} StrCmpTransitive(a: string, b: string, c: string)
    requires StrCmp(a, b) < 0 && StrCmp(b, c) < 0
    ensures StrCmp(a, c) < 0
  {
    if a != [] && b != [] && c != [] && a[0] == b[0] == c[0] {
      StrCmpTransitive(a[1..], b[1..], c[1..]);
    }
  }

  lemma StrCmpIsOrder()
    ensures TotalOrder(StrCmp)
  {
    forall a, b
      ensures StrCmp(a, b) == 0 <==> a == b
      ensures StrCmp(a, b) < 0 <==> StrCmp(b, a) > 0
    {
      StrCmpSigns(a, b);
    }
    forall a, b, c | StrCmp(a, b) < 0 && StrCmp(b, c) < 0
      ensures StrCmp(a, c) < 0
    {
      StrCmpTransitive(a, b, c);
    }
  }

  /** data_cmp and group_cmp are strict total orders on names. */
  lemma DataCmpIsOrder()
    ensures TotalOrder(DataCmp)
  {
    StrCmpIsOrder();
    assert forall a, b :: DataCmp(a, b) == StrCmp(a, b);
  }

  lemma GroupCmpIsOrder()
    ensures TotalOrder(GroupCmp)
  {
    StrCmpIsOrder();
    assert forall a, b :: GroupCmp(a, b) == StrCmp(a, b);
  }

  /** session_cmp is the lexicographic order on IP text, then port. */
  lemma SessionCmpIsOrder()
    ensures TotalOrder(SessionCmp)
  {
    StrCmpIsOrder();
    forall a, b
      ensures SessionCmp(a, b) == 0 <==> a == b
      ensures SessionCmp(a, b) < 0 <==> SessionCmp(b, a) > 0
    {
      StrCmpSigns(a.ip, b.ip);
    }
    forall a, b, c | SessionCmp(a, b) < 0 && SessionCmp(b, c) < 0
      ensures SessionCmp(a, c) < 0
    {
      StrCmpSigns(a.ip, b.ip);
      StrCmpSigns(b.ip, c.ip);
      if StrCmp(a.ip, b.ip) < 0 && StrCmp(b.ip, c.ip) < 0 {
        StrCmpTransitive(a.ip, b.ip, c.ip);
      }
    }
  }

  /** data_cmp and group_cmp decide dictionary order, session_cmp that of the IP texts and then
      that of the ports. */
  lemma ComparatorsDecide(a: string, b: string, x: Address, y: Address)
    ensures DataCmp(a, b) < 0 <==> Before(a, b)
    ensures DataCmp(a, b) > 0 <==> Before(b, a)
    ensures GroupCmp(a, b) < 0 <==> Before(a, b)
    ensures GroupCmp(a, b) > 0 <==> Before(b, a)
    ensures SessionCmp(x, y) < 0 <==> Before(x.ip, y.ip) || (x.ip == y.ip && x.port < y.port)
    ensures SessionCmp(x, y) > 0 <==> Before(y.ip, x.ip) || (x.ip == y.ip && x.port > y.port)
  {
    StrCmpIsDictionaryOrder(a, b);
    StrCmpIsDictionaryOrder(x.ip, y.ip);
  }

  const INT_MAX := 0x7FFF_FFFF

  /** A difference of two C ints, wrapped to 32 bits. */
  function Wrap(n: int): int {
    (n + INT_MAX + 1) % (2 * (INT_MAX + 1)) - INT_MAX - 1
  }

  /** The subtraction of main.c:74 cannot overflow while one port comes from a socket; and
      the other may then be any int down to 65535 - 2^31 - 1. */
  lemma PortDifferenceFits(a: int, b: int)
    requires -INT_MAX - 1 <= a <= INT_MAX && 0 <= b < 0x1_0000
    ensures Wrap(a - b) == a - b <==> a >= b - INT_MAX - 1
  {
  }
}
