/** The read/write/execute permissions of a POSIX.1e ACL entry, and the two
    conversions between a permission set and a bit mask (`permset_bits` and
    `bits_as_permarray` in simpleacl.py).

    Masks are Python integers: unbounded and two's complement, so that `~m`
    is `-m - 1` and `b & 7` is `b % 8`. */
module PermBits {

  /** One permission of an ACL entry. */
  datatype Perm = Read | Write | Execute

  /** The provider's constants ACL_READ, ACL_WRITE and ACL_EXECUTE: one distinct bit each. */
  function Value(p: Perm): int
  {
    match p
    case Read => 4
    case Write => 2
    case Execute => 1
  }

  /** Position of a permission in the fixed order Read, Write, Execute. */
  function Rank(p: Perm): nat
  {
    match p
    case Read => 0
    case Write => 1
    case Execute => 2
  }

  /** The order in which both conversions visit the permissions. */
  const Order: seq<Perm> := [Read, Write, Execute]

  const AllPerms: set<Perm> := {Read, Write, Execute}

  /** The members of a list of permissions. */
  function Elems(ps: seq<Perm>): set<Perm>
  {
    set p | p in ps
  }

  /** A list of permissions in the fixed order, each at most once. */
  predicate InOrder(ps: seq<Perm>)
  {
    forall i, j :: 0 <= i < j < |ps| ==> Rank(ps[i]) < Rank(ps[j])
  }

  /** Python's `bits & Value(p) != 0`. Bit k of a two's complement integer x is
      floor(x / 2^k) mod 2, and Dafny's `/` and `%` by a positive divisor are
      floor division and a non-negative remainder. */
  predicate HasBit(bits: int, p: Perm): (r: bool)
    ensures r <==> ((bits % 8) / Value(p)) % 2 == 1
  {
    var q, low := bits / 8, bits % 8;
    assert bits == 8 * q + low && 0 <= low < 8;
    assert bits / 4 == 2 * q + low / 4;
    assert bits / 2 == 4 * q + low / 2;
    (bits / Value(p)) % 2 == 1
  }

  /** Python's `~x` on an unbounded integer: the sign flips, and the low
      three bits are those of `x` flipped. */
  function Complement(x: int): (r: int)
    ensures r < 0 <==> 0 <= x
    ensures r % 8 == 7 - x % 8
  {
    var q, low := x / 8, x % 8;
    assert x == 8 * q + low && 0 <= low < 8;
    assert -x - 1 == 8 * (-q - 1) + (7 - low);
    -x - 1
  }

  /** The mask `permset_bits` computes: the sum of the values of the members. */
  function Bits(ps: set<Perm>): (b: int)
    ensures 0 <= b < 8
    ensures forall p :: HasBit(b, p) <==> p in ps
  {
    (if Read in ps then 4 else 0) + (if Write in ps then 2 else 0) + (if Execute in ps then 1 else 0)
  }

  /** The list `bits_as_permarray` computes: the permissions whose bit is set,
      in the fixed order. */
  function PermArray(bits: int): (r: seq<Perm>)
    ensures forall p :: p in r <==> HasBit(bits, p)
    ensures InOrder(r)
  {
    (if HasBit(bits, Read) then [Read] else [])
    + (if HasBit(bits, Write) then [Write] else [])
    + (if HasBit(bits, Execute) then [Execute] else [])
  }

  /** Two ordered lists with the same members are the same list. */
  lemma {:induction false} InOrderUnique(a: seq<Perm>, b: seq<Perm>)
    requires InOrder(a) && InOrder(b)
    requires forall p :: p in a <==> p in b
    ensures a == b
  {
    assert a != [] ==> a[0] in b;
    assert b != [] ==> b[0] in a;
    if a != [] && b != [] {
      var j :| 0 <= j < |b| && b[j] == a[0];
      var i :| 0 <= i < |a| && a[i] == b[0];
      assert Rank(b[0]) <= Rank(b[j]) && Rank(a[0]) <= Rank(a[i]);
      assert a[0] == b[0];
      forall p
        ensures p in a[1..] <==> p in b[1..]
      {
        if p in a[1..] {
          var i :| 1 <= i < |a| && a[i] == p;
          assert Rank(a[0]) < Rank(p) && p in b;
          var j :| 0 <= j < |b| && b[j] == p;
          assert j != 0 && b[1..][j - 1] == p;
        }
        if p in b[1..] {
          var i :| 1 <= i < |b| && b[i] == p;
          assert Rank(b[0]) < Rank(p) && p in a;
          var j :| 0 <= j < |a| && a[j] == p;
          assert j != 0 && a[1..][j - 1] == p;
        }
      }
      InOrderUnique(a[1..], b[1..]);
      assert a == [a[0]] + a[1..];
      assert b == [b[0]] + b[1..];
    }
  }

  /** Round trip from a permission set: the list of `Bits(ps)` is the list of
      exactly the members of `ps` in the fixed order. */
  lemma PermArrayOfBits(ps: set<Perm>, listing: seq<Perm>)
    requires InOrder(listing) && Elems(listing) == ps
    ensures PermArray(Bits(ps)) == listing
  {
    forall p
      ensures p in PermArray(Bits(ps)) <==> p in listing
    {
      assert p in listing <==> p in Elems(listing);
    }
    InOrderUnique(PermArray(Bits(ps)), listing);
  }

  /** Taking `~` of a mask flips every permission bit (for every integer). */
  lemma ComplementFlips(m: int, p: Perm)
    ensures HasBit(Complement(m), p) <==> !HasBit(m, p)
  {
    var v := Value(p);
    var q, r := m / v, m % v;
    assert m == v * q + r && 0 <= r < v;
    assert Complement(m) == v * (-q - 1) + (v - 1 - r);
    assert Complement(m) / v == -q - 1;
  }

  /** `bits_as_permarray(b)` depends on the low three bits of `b` only. */
  lemma PermArrayLowBits(b: int)
    ensures PermArray(b) == PermArray(b % 8)
  {
    assert (b % 8) % 8 == b % 8;
  }

  /** The list made from the complement of a mask holds exactly the
      permissions that the mask lacks: no truncation of `~mask` is needed. */
  lemma ForbiddenByMask(mask: set<Perm>)
    ensures Elems(PermArray(Complement(Bits(mask)))) == AllPerms - mask
  {
    forall p
      ensures p in PermArray(Complement(Bits(mask))) <==> p !in mask
    {
      ComplementFlips(Bits(mask), p);
    }
  }

  /** Setting the permissions from a mask and reading them back gives the
      mask's low three bits, `b & 7`. */
  lemma BitsOfPermArray(b: int)
    ensures Bits(Elems(PermArray(b))) == b % 8
  {
    var r, e := b % 8, Elems(PermArray(b));
    assert Read in e <==> HasBit(b, Read);
    assert Write in e <==> HasBit(b, Write);
    assert Execute in e <==> HasBit(b, Execute);
    assert r == 4 * (r / 4) + 2 * ((r / 2) % 2) + r % 2;
  }

  /** `permset_bits`: visit Read, Write, Execute and OR in the bit of each
      member of the permission set. */
  method PermsetBits(permset: set<Perm>) returns (bits: int)
    ensures bits == Bits(permset)
  {
    bits := 0;
    for i := 0 to |Order|
      invariant bits == Bits(set p | p in permset && Rank(p) < i)
    {
      var perm := Order[i];
      if perm in permset {
        // the bit is not set yet, so `bits |= perm` adds its value
        assert !HasBit(bits, perm);
        bits := bits + Value(perm);
      }
    }
    assert (set p | p in permset && Rank(p) < 3) == permset;
  }

  /** `bits_as_permarray`: visit Read, Write, Execute and append each one
      whose bit is set in `bits`. */
  method BitsAsPermarray(bits: int) returns (perms: seq<Perm>)
    ensures perms == PermArray(bits)
  {
    perms := [];
    for i := 0 to |Order|
      invariant InOrder(perms)
      invariant forall p :: p in perms <==> HasBit(bits, p) && Rank(p) < i
    {
      var perm := Order[i];
      assert Rank(perm) == i;
      if HasBit(bits, perm) {
        perms := perms + [perm];
      }
    }
    InOrderUnique(perms, PermArray(bits));
  }
}
