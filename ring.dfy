/** The profile ring buffer: the region [BEGIN, END) of the dive computer's
    memory that holds the dive profiles, treated as circular. */
module ProfileRing {

  /** RB_PROFILE_BEGIN */
  const BEGIN: nat := 0x019A
  /** RB_PROFILE_END: the last two bytes of the 32 KiB memory are not part of the ring. */
  const END: nat := 0x8000 - 2
  /** Number of bytes in the ring. */
  const SIZE: nat := END - BEGIN

  predicate InRing(a: nat)
  {
    BEGIN <= a < END
  }

  /** RB_PROFILE_DISTANCE (ringbuffer_distance over the profile bounds): how
      many bytes lie between `a` and `b` going forward around the ring. */
  function Distance(a: nat, b: nat): (d: nat)
    requires InRing(a) && InRing(b)
    ensures d < SIZE
    ensures d == (b - a) % SIZE
    ensures d == 0 <==> a == b
  {
    if b >= a then b - a else (END - a) + (b - BEGIN)
  }

  /** The ring position `t` bytes after `base`. */
  function Pos(base: nat, t: nat): (p: nat)
    requires InRing(base)
    ensures InRing(p)
  {
    BEGIN + (base - BEGIN + t) % SIZE
  }

  /** Distance and Pos invert each other. */
  lemma DistancePosRoundTrip(base: nat, t: nat, x: nat)
    requires InRing(base) && t < SIZE && InRing(x)
    ensures Distance(base, Pos(base, t)) == t
    ensures Pos(base, Distance(base, x)) == x
  {
  }

  /** Pos is one-to-one on a lap of the ring. */
  lemma PosInjective(base: nat, t: nat, u: nat)
    requires InRing(base) && t < SIZE && u < SIZE && Pos(base, t) == Pos(base, u)
    ensures t == u
  {
    DistancePosRoundTrip(base, t, base);
    DistancePosRoundTrip(base, u, base);
  }

  /** The ring address `address` (where END stands for BEGIN) is the position
      `t` bytes after `base`, counted modulo the ring size. */
  predicate AddressOf(base: nat, t: nat, address: nat)
  {
    BEGIN <= address <= END && (address - BEGIN) % SIZE == (base - BEGIN + t) % SIZE
  }

  /** Going `j` bytes down from an address without crossing BEGIN lands on
      the position `t - j` bytes after `base`. */
  lemma PosBelow(base: nat, t: nat, address: nat, j: nat)
    requires InRing(base) && AddressOf(base, t, address)
    requires 1 <= j <= address - BEGIN && j <= t
    ensures Pos(base, t - j) == address - j
    ensures AddressOf(base, t - j, address - j)
  {
  }

  /** A ring position read as an address. */
  lemma PosIsAddress(base: nat, t: nat)
    requires InRing(base)
    ensures AddressOf(base, t, Pos(base, t))
  {
  }

  /** END and BEGIN are the same address. */
  lemma WrapAddress(base: nat, t: nat)
    requires AddressOf(base, t, BEGIN)
    ensures AddressOf(base, t, END)
  {
  }

  /** If `previous` lies `Distance(previous, current)` bytes before `current`
      and no further back than `base`, it is the position that many bytes
      fewer after `base`. */
  lemma PosPrevious(base: nat, t: nat, current: nat, previous: nat)
    requires InRing(base) && InRing(previous) && InRing(current)
    requires Pos(base, t) == current && Distance(previous, current) <= t
    ensures Pos(base, t - Distance(previous, current)) == previous
  {
  }

  /** Stepping `a` then `b` bytes is stepping `a + b` bytes. */
  lemma PosShift(base: nat, a: nat, b: nat)
    requires InRing(base)
    ensures Pos(Pos(base, a), b) == Pos(base, a + b)
  {
  }
}
