/** Bit masks as lists of positions. */
module BitUtil {

  const TWO_32: int := 0x1_0000_0000

  function Pow2(n: nat): nat {
    if n == 0 then 1 else 2 * Pow2(n - 1)
  }

  /** What the bit operators of JavaScript see of a number: its low 32 bits, unsigned. */
  function ToUint32(number: int): nat {
    number % TWO_32
  }

  function Mask(positions: seq<nat>): nat {
    if positions == [] then 0 else Mask(positions[..|positions| - 1]) + Pow2(positions[|positions| - 1])
  }

  /** Bit `p` of a number: what is lowest after shifting right `p` times. */
  predicate Bit(n: nat, p: nat) {
    if p == 0 then n % 2 == 1 else Bit(n / 2, p - 1)
  }

  ghost predicate Ascending(positions: seq<nat>) {
    forall i, j :: 0 <= i < j < |positions| ==> positions[i] < positions[j]
  }

  /** The bits of `n` from position `p` on. */
  function Bits(n: nat, p: nat): seq<nat> {
    if n == 0 then [] else (if n % 2 == 1 then [p] else []) + Bits(n / 2, p + 1)
  }

  /** The list of set bits of a number, lowest first. */
  function Positions(number: int): seq<nat> {
    Bits(ToUint32(number), 0)
  }

  method BitsToPositions(number: int) returns (result: seq<nat>)
    ensures result == Positions(number)
  {
    hide Bits, ToUint32;
    result := [];
    var position, rest := 0, number;
    while rest != 0
      invariant Positions(number) == result + Bits(ToUint32(rest), position)
      decreases if 0 <= rest < TWO_32 then rest else TWO_32
    {
      ShiftOnce(rest, position);
      var bits := ToUint32(rest);
      if bits % 2 == 1 {
        result := result + [position];
      }
      rest := bits / 2;
      position := position + 1;
    }
    NoBits(position);
  }

  lemma NoBits(p: nat)
    ensures Bits(ToUint32(0), p) == []
  {}

  lemma ShiftOnce(number: int, p: nat)
    ensures var n := ToUint32(number);
            && ToUint32(n / 2) == n / 2 < TWO_32
            && Bits(n, p) == (if n % 2 == 1 then [p] else []) + Bits(n / 2, p + 1)
            && (0 < number < TWO_32 ==> n / 2 < number)
  {}

  lemma {:induction false} BitsFacts(n: nat, p: nat)
    ensures Ascending(Bits(n, p))
    ensures forall q :: q in Bits(n, p) ==> q >= p
  {
    if n != 0 {
      BitsFacts(n / 2, p + 1);
      var rest := Bits(n / 2, p + 1);
      forall i | 0 <= i < |rest| ensures rest[i] > p {
        assert rest[i] in rest;
      }
    }
  }

  lemma {:induction false} MaskSplit(a: seq<nat>, b: seq<nat>)
    ensures Mask(a + b) == Mask(a) + Mask(b)
  {
    if b == [] {
      assert a + b == a;
    } else {
      var front := b[..|b| - 1];
      MaskSplit(a, front);
      assert (a + b)[..|a + b| - 1] == a + front;
    }
  }

  lemma BitsSplit(n: nat, p: nat)
    requires n != 0
    ensures Mask(Bits(n, p)) == (if n % 2 == 1 then Pow2(p) else 0) + Mask(Bits(n / 2, p + 1))
  {
    var head: seq<nat> := if n % 2 == 1 then [p] else [];
    MaskSplit(head, Bits(n / 2, p + 1));
    assert head == [p] ==> head[..0] == [];
  }

  lemma {:induction false} ShiftDoubles(n: nat, p: nat)
    ensures Mask(Bits(n, p + 1)) == 2 * Mask(Bits(n, p))
  {
    if n != 0 {
      BitsSplit(n, p);
      BitsSplit(n, p + 1);
      ShiftDoubles(n / 2, p + 1);
    }
  }

  lemma {:induction false} MaskOfBits(n: nat)
    ensures Mask(Bits(n, 0)) == n
  {
    if n != 0 {
      BitsSplit(n, 0);
      ShiftDoubles(n / 2, 0);
      MaskOfBits(n / 2);
    }
  }

  lemma {:induction false} BitOfBits(n: nat, p: nat, q: nat)
    ensures p + q in Bits(n, p) <==> Bit(n, q)
  {
    if n == 0 {
      ZeroHasNoBit(q);
    } else if q == 0 {
      BitsFacts(n / 2, p + 1);
    } else {
      BitOfBits(n / 2, p + 1, q - 1);
    }
  }

  lemma {:induction false} ZeroHasNoBit(q: nat)
    ensures !Bit(0, q)
  {
    if q > 0 {
      ZeroHasNoBit(q - 1);
    }
  }

  /**
   The list of positions is strictly ascending, names exactly the set bits of the low 32 bits, and
   adding up the powers gives them back.
   */
  lemma PositionsFaithful(number: int)
    ensures Ascending(Positions(number))
    ensures forall q: nat :: q in Positions(number) <==> Bit(ToUint32(number), q)
    ensures Mask(Positions(number)) == ToUint32(number)
  {
    hide Bits, Mask, Bit, ToUint32;
    var n := ToUint32(number);
    BitsFacts(n, 0);
    MaskOfBits(n);
    forall q: nat ensures q in Positions(number) <==> Bit(n, q) {
      BitOfBits(n, 0, q);
      assert 0 + q == q;
    }
  }

  /** These are the low 32 bits in two's complement, also of negative numbers. */
  lemma MaskIsLow32Bits(number: int)
    ensures 0 <= Mask(Positions(number)) < 4294967296
    ensures exists k: int :: number == Mask(Positions(number)) + 4294967296 * k
  {
    PositionsFaithful(number);
    assert number == ToUint32(number) + 4294967296 * (number / 4294967296);
  }

  /** The mask itself comes back exactly when it is an unsigned 32-bit number. */
  lemma MaskComesBackIff(number: int)
    ensures Mask(Positions(number)) == number <==> 0 <= number < TWO_32
  {
    hide Bits, Mask, Bit, Positions;
    PositionsFaithful(number);
  }
}
