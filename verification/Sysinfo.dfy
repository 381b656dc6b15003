/**
  The scaling step of do_sysinfo: memory sizes counted in units are converted to bytes
  if the total fits a machine word, of whatever width.
 */
module Sysinfo {

  function Pow2(n: nat): (r: nat)
    ensures r > 0
  {
    if n == 0 then 1 else 2 * Pow2(n - 1)
  }

  /** How many times m can be halved before it is at most one. */
  function Log2(m: nat): nat
  {
    if m <= 1 then 0 else 1 + Log2(m / 2)
  }

  /** x shifted left by n in words of w bits: what does not fit is lost. */
  function Shl(w: nat, x: nat, n: nat): nat
    decreases n
  {
    if n == 0 then x else Shl(w, 2 * x % Pow2(w), n - 1)
  }

  datatype Info = Info(totalram: nat, freeram: nat, sharedram: nat, bufferram: nat,
                       totalswap: nat, freeswap: nat, totalhigh: nat, freehigh: nat, memUnit: nat)
  {
    function Fields(): seq<nat>
    {
      [totalram, freeram, sharedram, bufferram, totalswap, freeswap, totalhigh, freehigh]
    }

    function Total(): nat { totalram + totalswap }

    /** Every field is a machine word. */
    predicate Words(w: nat) { forall i :: 0 <= i < |Fields()| ==> Fields()[i] < Pow2(w) }

    /** Every field is a part of the memory there is. */
    predicate Parts() { forall i :: 0 <= i < |Fields()| ==> Fields()[i] <= Total() }
  }

  lemma {:induction false} Pow2Mono(a: nat, b: nat)
    requires a <= b
    ensures Pow2(a) <= Pow2(b)
    decreases b
  {
    if a < b {
      Pow2Mono(a, b - 1);
    }
  }

  /** What a word holds of a number that is less than twice its range. */
  lemma WrapOnce(x: nat, m: nat)
    requires 0 < m && x < 2 * m
    ensures x % m == if x < m then x else x - m
  {
    var q, r := x / m, x % m;
    assert x == q * m + r && 0 <= r < m;
    if q >= 2 {
      ProductMono(2, q, m);
    }
    assert q == 0 || q == 1;
  }

  /** Doubling a word overflows exactly if the result is smaller than before. */
  lemma DoublingDetected(w: nat, x: nat)
    requires x < Pow2(w)
    ensures 2 * x % Pow2(w) < x <==> 2 * x >= Pow2(w)
    ensures 2 * x < Pow2(w) ==> 2 * x % Pow2(w) == 2 * x
  {
    WrapOnce(2 * x, Pow2(w));
  }

  /** Adding two words overflows exactly if the result is smaller than either. */
  lemma SumDetected(w: nat, x: nat, y: nat)
    requires x < Pow2(w) && y < Pow2(w)
    ensures (x + y) % Pow2(w) < x || (x + y) % Pow2(w) < y <==> x + y >= Pow2(w)
    ensures x + y < Pow2(w) ==> (x + y) % Pow2(w) == x + y
  {
    WrapOnce(x + y, Pow2(w));
  }

  /** A shift that fits the word is a multiplication. */
  lemma {:induction false} ShlExact(w: nat, x: nat, n: nat)
    requires x * Pow2(n) < Pow2(w)
    ensures Shl(w, x, n) == x * Pow2(n)
    decreases n
  {
    if n > 0 {
      NextPower(x, n);
      DoubleFirst(x, Pow2(n - 1));
      Product(2 * x, Pow2(n - 1));
      WrapOnce(2 * x, Pow2(w));
      ShlExact(w, 2 * x, n - 1);
    }
  }

  lemma {:induction false} ShlIsWord(w: nat, x: nat, n: nat)
    requires x < Pow2(w)
    ensures Shl(w, x, n) < Pow2(w)
    decreases n
  {
    if n > 0 {
      ShlIsWord(w, 2 * x % Pow2(w), n - 1);
    }
  }

  /** A shift loses bits exactly if the product does not fit the word. */
  lemma ShlExactIff(w: nat, x: nat, n: nat)
    requires x < Pow2(w)
    ensures Shl(w, x, n) == x * Pow2(n) <==> x * Pow2(n) < Pow2(w)
  {
    ShlIsWord(w, x, n);
    if x * Pow2(n) < Pow2(w) {
      ShlExact(w, x, n);
    }
  }

  lemma DoubleFirst(x: nat, p: nat)
    ensures 2 * x * p == 2 * (x * p)
  {
  }

  lemma Product(x: nat, p: nat)
    requires p > 0
    ensures x <= x * p
  {
  }

  lemma ProductMono(x: nat, y: nat, p: nat)
    requires x <= y
    ensures x * p <= y * p
  {
  }

  /** Does the whole memory, in units of 2 to the power bits, fit the word? */
  predicate FitsWord(w: nat, info: Info, bits: nat) { info.Total() * Pow2(bits) < Pow2(w) }

  /** The record with every field multiplied and the unit set to one. */
  function Scaled(info: Info, bits: nat): Info
  {
    var p := Pow2(bits);
    Info(info.totalram * p, info.freeram * p, info.sharedram * p, info.bufferram * p,
         info.totalswap * p, info.freeswap * p, info.totalhigh * p, info.freehigh * p, 1)
  }

  /** The loop: count the bits of the unit while doubling the total, and stop as soon as it overflows. */
  method CountBits(w: nat, total: nat, memUnit: nat) returns (fits: bool, bitcount: nat)
    requires total < Pow2(w)
    ensures fits <==> total * Pow2(Log2(memUnit)) < Pow2(w)
    ensures fits ==> bitcount == Log2(memUnit)
  {
    bitcount := 0;
    var unit, memTotal := memUnit, total;
    assert total * Pow2(0) == total;
    while unit > 1
      invariant memTotal == total * Pow2(bitcount) < Pow2(w)
      invariant bitcount + Log2(unit) == Log2(memUnit)
      decreases unit
    {
      bitcount := bitcount + 1;
      unit := unit / 2;
      var savTotal := memTotal;
      memTotal := memTotal * 2 % Pow2(w);
      DoublingDetected(w, savTotal);
      NextPower(total, bitcount);
      if memTotal < savTotal {
        Pow2Mono(bitcount, Log2(memUnit));
        ProductMonoRight(total, Pow2(bitcount), Pow2(Log2(memUnit)));
        return false, bitcount;
      }
    }
    fits := true;
  }

  lemma NextPower(total: nat, n: nat)
    requires n > 0
    ensures total * Pow2(n) == 2 * (total * Pow2(n - 1))
  {
  }

  lemma ProductMonoRight(x: nat, p: nat, q: nat)
    requires p <= q
    ensures x * p <= x * q
  {
  }

  /** The scaling of do_sysinfo, in words of w bits. */
  method DoSysinfo(w: nat, info: Info) returns (r: Info)
    requires info.Words(w)
    ensures !FitsWord(w, info, Log2(info.memUnit)) ==> r == info
    ensures FitsWord(w, info, Log2(info.memUnit)) ==>
              r == Shifted(w, info, Log2(info.memUnit))
    ensures FitsWord(w, info, Log2(info.memUnit)) && info.Parts() ==> r == Scaled(info, Log2(info.memUnit))
    ensures info.Parts() && PowerOfTwo(info.memUnit) ==>
              forall i :: 0 <= i < 8 ==> r.Fields()[i] * r.memUnit == info.Fields()[i] * info.memUnit
  {
    assert info.Fields()[0] < Pow2(w) && info.Fields()[4] < Pow2(w);
    var memTotal := (info.totalram + info.totalswap) % Pow2(w);
    SumDetected(w, info.totalram, info.totalswap);
    if memTotal < info.totalram || memTotal < info.totalswap {
      Product(info.Total(), Pow2(Log2(info.memUnit)));
      return info;
    }
    var fits, n := CountBits(w, memTotal, info.memUnit);
    if !fits {
      return info;
    }
    r := info.(memUnit := 1);
    r := r.(totalram := Shl(w, r.totalram, n));
    r := r.(freeram := Shl(w, r.freeram, n));
    r := r.(sharedram := Shl(w, r.sharedram, n));
    r := r.(bufferram := Shl(w, r.bufferram, n));
    r := r.(totalswap := Shl(w, r.totalswap, n));
    r := r.(freeswap := Shl(w, r.freeswap, n));
    r := r.(totalhigh := Shl(w, r.totalhigh, n));
    r := r.(freehigh := Shl(w, r.freehigh, n));
    if info.Parts() {
      PartsExact(w, info, n);
      if PowerOfTwo(info.memUnit) {
        ScaledBytes(info);
      }
    }
  }

  /** The record with every field shifted and the unit set to one. */
  function Shifted(w: nat, info: Info, n: nat): Info
  {
    Info(Shl(w, info.totalram, n), Shl(w, info.freeram, n), Shl(w, info.sharedram, n), Shl(w, info.bufferram, n),
         Shl(w, info.totalswap, n), Shl(w, info.freeswap, n), Shl(w, info.totalhigh, n), Shl(w, info.freehigh, n), 1)
  }

  lemma PartExact(w: nat, info: Info, n: nat, i: nat)
    requires i < 8 && info.Fields()[i] <= info.Total() && FitsWord(w, info, n)
    ensures Shl(w, info.Fields()[i], n) == info.Fields()[i] * Pow2(n)
  {
    ProductMono(info.Fields()[i], info.Total(), Pow2(n));
    ShlExact(w, info.Fields()[i], n);
  }

  /** No shift of a part of the memory loses a bit. */
  lemma PartsExact(w: nat, info: Info, n: nat)
    requires info.Parts() && FitsWord(w, info, n)
    ensures Shifted(w, info, n) == Scaled(info, n)
  {
    PartExact(w, info, n, 0);
    PartExact(w, info, n, 1);
    PartExact(w, info, n, 2);
    PartExact(w, info, n, 3);
    PartExact(w, info, n, 4);
    PartExact(w, info, n, 5);
    PartExact(w, info, n, 6);
    PartExact(w, info, n, 7);
  }

  /** Every field stands for as many bytes as before, if the unit is a power of two. */
  lemma ScaledBytes(info: Info)
    requires PowerOfTwo(info.memUnit)
    ensures var r := Scaled(info, Log2(info.memUnit));
            r.memUnit == 1 && forall i :: 0 <= i < 8 ==> r.Fields()[i] * r.memUnit == info.Fields()[i] * info.memUnit
  {
    PowerIff(info.memUnit);
  }

  ghost predicate PowerOfTwo(m: nat) { exists n :: m == Pow2(n) }

  /** The bits of a unit: it is the power of two itself or lies below the next one. */
  lemma {:induction false} Log2Means(m: nat)
    requires m > 0
    ensures Pow2(Log2(m)) <= m < 2 * Pow2(Log2(m))
  {
    if m > 1 {
      Log2Means(m / 2);
    }
  }

  lemma {:induction false} Log2OfPow2(n: nat)
    ensures Log2(Pow2(n)) == n
  {
    if n > 0 {
      Log2OfPow2(n - 1);
    }
  }

  /** The power of two below a unit is the unit itself exactly if the unit is a power of two. */
  lemma PowerIff(m: nat)
    ensures Pow2(Log2(m)) == m <==> PowerOfTwo(m)
  {
    if n :| m == Pow2(n) {
      Log2OfPow2(n);
    }
  }

  /**
    Scaling keeps the number of bytes that a field stands for exactly if the unit is a power of two or the field is
    zero.
   */
  lemma BytesKeptIff(x: nat, unit: nat)
    ensures x * Pow2(Log2(unit)) * 1 == x * unit <==> x == 0 || PowerOfTwo(unit)
  {
    PowerIff(unit);
    var p := Pow2(Log2(unit));
    if x * p == x * unit && x > 0 {
      Cancel(x, p, unit);
    }
  }

  /** For instance, one unit of three bytes becomes two bytes. */
  lemma ThreesLost()
    ensures 1 * Pow2(Log2(3)) * 1 == 2
  {
    assert Log2(3) == 1;
  }

  lemma Cancel(x: nat, p: nat, q: nat)
    requires x > 0 && x * p == x * q
    ensures p == q
  {
    assert x * (p - q) == x * p - x * q;
  }
}
