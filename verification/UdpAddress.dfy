/** The key of the session table (src/Udp.h): an IPv4 address and a port, ordered by `memcmp`. */
module UdpAddresses {
  import opened Words

  /** The four bytes of an `in_addr_t` as they lie in memory. */
  type Ip = s: seq<Byte> | |s| == 4 witness [0, 0, 0, 0]

  datatype UdpAddress = UdpAddress(ip: Ip, port: Word)

  /** The standard fixes only the sign of what `memcmp` returns. Implementations differ in the
      rest: some return the sign, some the difference of the first two bytes that differ. */
  datatype Memcmp = SignOnly | ByteDifference

  function Compare(style: Memcmp, a: seq<Byte>, b: seq<Byte>): int
    requires |a| == |b|
  {
    if a == [] then 0
    else if a[0] == b[0] then Compare(style, a[1..], b[1..])
    else if style == ByteDifference then a[0] as int - b[0] as int
    else if a[0] < b[0] then -1 else 1
  }

  /** `operator==` */
  predicate Equal(style: Memcmp, x: UdpAddress, y: UdpAddress) {
    Compare(style, y.ip, x.ip) == 0 && y.port == x.port
  }

  /** `operator<`: the byte comparison counts only if it is exactly -1. */
  predicate Less(style: Memcmp, x: UdpAddress, y: UdpAddress) {
    var rc := Compare(style, y.ip, x.ip);
    if rc != 0 then rc == -1 else y.port < x.port
  }

  /** What `std::map` takes for the same key. */
  predicate SameKey(style: Memcmp, x: UdpAddress, y: UdpAddress) {
    !Less(style, x, y) && !Less(style, y, x)
  }

  lemma {:induction false} CompareZero(style: Memcmp, a: seq<Byte>, b: seq<Byte>)
    requires |a| == |b|
    ensures Compare(style, a, b) == 0 <==> a == b
    ensures Compare(style, a, b) == -Compare(style, b, a)
    ensures style == SignOnly ==> -1 <= Compare(style, a, b) <= 1
  {
    if a != [] {
      CompareZero(style, a[1..], b[1..]);
      assert a == [a[0]] + a[1..] && b == [b[0]] + b[1..];
    }
  }

  lemma {:induction false} CompareTransitive(a: seq<Byte>, b: seq<Byte>, c: seq<Byte>)
    requires |a| == |b| == |c|
    requires Compare(SignOnly, a, b) == -1 && Compare(SignOnly, b, c) == -1
    ensures Compare(SignOnly, a, c) == -1
  {
    if a != [] && a[0] == b[0] == c[0] {
      CompareTransitive(a[1..], b[1..], c[1..]);
    }
  }

  /** Where `memcmp` returns signs, `operator<` is a strict total order whose equivalence is
      equality of addresses, which is also what `operator==` decides. */
  lemma TotalOrder(x: UdpAddress, y: UdpAddress, z: UdpAddress)
    ensures !Less(SignOnly, x, x)
    ensures Less(SignOnly, x, y) && Less(SignOnly, y, z) ==> Less(SignOnly, x, z)
    ensures SameKey(SignOnly, x, y) <==> x == y
    ensures Equal(SignOnly, x, y) <==> x == y
  {
    CompareZero(SignOnly, x.ip, x.ip);
    CompareZero(SignOnly, x.ip, y.ip);
    CompareZero(SignOnly, y.ip, z.ip);
    CompareZero(SignOnly, x.ip, z.ip);
    if Less(SignOnly, x, y) && Less(SignOnly, y, z) && x.ip != y.ip && y.ip != z.ip {
      CompareTransitive(z.ip, y.ip, x.ip);
    }
  }

  /** The first place where the two differ. */
  predicate DiffersFirstAt(a: seq<Byte>, b: seq<Byte>, k: nat) {
    k < |a| == |b| && a[..k] == b[..k] && a[k] != b[k]
  }

  /** `memcmp` compares the first bytes that differ. */
  lemma {:induction false} CompareAt(style: Memcmp, a: seq<Byte>, b: seq<Byte>, k: nat)
    requires DiffersFirstAt(a, b, k)
    ensures style == SignOnly ==> Compare(style, a, b) == if a[k] < b[k] then -1 else 1
    ensures style == ByteDifference ==> Compare(style, a, b) == a[k] as int - b[k] as int
    decreases k
  {
    if k > 0 {
      assert a[0] == a[..k][0] && b[0] == b[..k][0];
      assert a[1..][..k - 1] == a[..k][1..] && b[1..][..k - 1] == b[..k][1..];
      CompareAt(style, a[1..], b[1..], k - 1);
    }
  }

  lemma {:induction false} DifferSomewhere(a: seq<Byte>, b: seq<Byte>) returns (k: nat)
    requires |a| == |b| && a != b
    ensures DiffersFirstAt(a, b, k)
  {
    assert a == [a[0]] + a[1..] && b == [b[0]] + b[1..];
    if a[0] != b[0] {
      k := 0;
    } else {
      var j := DifferSomewhere(a[1..], b[1..]);
      k := j + 1;
      assert a[..k] == [a[0]] + a[1..][..j] && b[..k] == [b[0]] + b[1..][..j];
    }
  }

  /** The order is the reverse of the bytes': of two addresses on one port the one whose first
      differing byte is greater comes first, and of two ports on one address the higher. */
  lemma OrderByNumber(x: UdpAddress, y: UdpAddress, k: nat)
    ensures x.ip == y.ip ==> (Less(SignOnly, x, y) <==> y.port < x.port)
    ensures DiffersFirstAt(x.ip, y.ip, k) ==> (Less(SignOnly, x, y) <==> y.ip[k] < x.ip[k])
  {
    CompareZero(SignOnly, y.ip, x.ip);
    if DiffersFirstAt(x.ip, y.ip, k) {
      CompareAt(SignOnly, y.ip, x.ip, k);
    }
  }

  lemma SameBefore(a: seq<Byte>, b: seq<Byte>, k: nat, i: nat)
    requires DiffersFirstAt(a, b, k) && i < k
    ensures a[i] == b[i]
  {
    assert a[..k][i] == b[..k][i];
  }

  lemma OneFirst(a: seq<Byte>, b: seq<Byte>, j: nat, k: nat)
    requires DiffersFirstAt(a, b, j) && DiffersFirstAt(a, b, k)
    ensures j == k
  {
    if j < k {
      SameBefore(a, b, k, j);
    } else if k < j {
      SameBefore(a, b, j, k);
    }
  }

  predicate FarApart(p: Byte, q: Byte) {
    var d: int := p - q;
    d > 1 || d < -1
  }

  /** Where `memcmp` returns differences, two clients are taken for one exactly if the first bytes
      in which their addresses differ, if any, are not neighbours. */
  lemma ConfusedClients(x: UdpAddress, y: UdpAddress)
    requires x != y
    ensures SameKey(ByteDifference, x, y) <==>
      exists k: nat :: DiffersFirstAt(x.ip, y.ip, k) && FarApart(x.ip[k], y.ip[k])
  {
    CompareZero(ByteDifference, x.ip, y.ip);
    if x.ip != y.ip {
      var k := DifferSomewhere(x.ip, y.ip);
      CompareAt(ByteDifference, x.ip, y.ip, k);
      forall j: nat | DiffersFirstAt(x.ip, y.ip, j)
        ensures j == k
      {
        OneFirst(x.ip, y.ip, j, k);
      }
    }
  }

  lemma ConfusedExample()
    ensures SameKey(ByteDifference, UdpAddress([10, 0, 0, 1], 9001), UdpAddress([10, 0, 0, 3], 9001))
  {
  }

  // ----- iteration order

  /** `k` comes first in this set. */
  predicate IsFirst(k: UdpAddress, keys: set<UdpAddress>) {
    k in keys && forall x :: x in keys && x != k ==> Less(SignOnly, k, x)
  }

  lemma FirstExists(keys: set<UdpAddress>) returns (k: UdpAddress)
    requires keys != {}
    ensures IsFirst(k, keys)
    decreases keys
  {
    k :| k in keys;
    if exists x :: x in keys && x != k {
      var x :| x in keys && x != k;
      assert x in keys - {k};
      var j := FirstExists(keys - {k});
      TotalOrder(k, j, j);
      if Less(SignOnly, j, k) {
        k := j;
      } else {
        forall x | x in keys && x != k
          ensures Less(SignOnly, k, x)
        {
          TotalOrder(k, j, x);
        }
      }
    }
  }
}
