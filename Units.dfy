/** `human_readable` (discord.py:165-174): a byte count as a magnitude and a binary unit label.
    Magnitudes are mathematical reals; the digits of the `:.1f` rendering are not modelled. */
module Units {
  import opened Facets

  /** The unit prefixes the loop walks, in order. */
  const Prefixes: seq<string> := ["", "K", "M", "G", "T", "P"]

  function Abs(x: real): real {
    if x < 0.0 then -x else x
  }

  function Pow1024(k: nat): (p: real)
    ensures p >= 1.0
  {
    if k == 0 then 1.0 else 1024.0 * Pow1024(k - 1)
  }

  /** What `human_readable` prints: "N/A", or a magnitude followed by a unit label. */
  datatype Readable = NotAvailable | Sized(magnitude: real, unit: string)

  /** How often the loop has divided by 1024 when it stops, given that it has already
      divided `k` times without stopping: the first `d >= k` below 6 with |x / 1024^d| < 1024, else 6. */
  function DivisionsFrom(x: real, k: nat): (d: nat)
    requires k <= 6
    ensures k <= d <= 6
    decreases 6 - k
  {
    if k == 6 || Abs(x / Pow1024(k)) < 1024.0 then k else DivisionsFrom(x, k + 1)
  }

  /** How often the loop divides `x` by 1024 before it formats: 0 to 5 picks that unit, 6 means it ran out of units. */
  function Divisions(x: real): nat {
    DivisionsFrom(x, 0)
  }

  /** The reading `human_readable(num, suffix)` denotes. Once the loop has run out of units it has
      divided six times, so the magnitude is x / 1024^6, and it is labelled "P" all the same. */
  function HumanSize(num: Option<real>, suffix: string): Readable {
    match num
    case None => NotAvailable
    case Some(x) =>
      var k := Divisions(x);
      if k < 6 then Sized(x / Pow1024(k), Prefixes[k] + suffix) else Sized(x / Pow1024(6), "P" + suffix)
  }

  /** The loop of `human_readable`, dividing `num` in place. */
  method HumanReadable(num: Option<real>, suffix: string) returns (r: Readable)
    ensures num.None? <==> r == NotAvailable
    ensures r == HumanSize(num, suffix)
  {
    if num.None? {
      return NotAvailable;
    }
    var x := num.value;
    var n := x;
    var i := 0;
    while i < |Prefixes|
      invariant 0 <= i <= 6
      invariant n == x / Pow1024(i)
      invariant DivisionsFrom(x, i) == Divisions(x)
    {
      if Abs(n) < 1024.0 {
        return Sized(n, Prefixes[i] + suffix);
      }
      DivideStep(x, Pow1024(i));
      n := n / 1024.0;
      i := i + 1;
    }
    return Sized(n, "P" + suffix);
  }

  lemma DivideStep(x: real, p: real)
    requires p > 0.0
    ensures x / p / 1024.0 == x / (1024.0 * p)
  {
    var q := x / p;
    assert x == q * p;
    assert q / 1024.0 * (1024.0 * p) == q * p;
  }

  /** Dividing by a positive scale and comparing with 1024 is comparing with 1024 times the scale. */
  lemma ScaledBelow(x: real, p: real)
    requires p > 0.0
    ensures Abs(x / p) < 1024.0 <==> Abs(x) < 1024.0 * p
  {
    var q := x / p;
    assert x == q * p;
    assert Abs(x) == Abs(q) * p;
    if Abs(q) < 1024.0 {
      assert Abs(q) * p < 1024.0 * p;
    } else {
      assert Abs(q) * p >= 1024.0 * p;
    }
  }

  lemma {:induction false} PowMonotone(i: nat, j: nat)
    requires i <= j
    ensures Pow1024(i) <= Pow1024(j)
    decreases j - i
  {
    if i < j {
      PowMonotone(i, j - 1);
    }
  }

  lemma {:induction false} DivisionsFromIsFirst(x: real, k: nat)
    requires k <= 6
    requires forall j :: 0 <= j < k ==> Abs(x) >= 1024.0 * Pow1024(j)
    ensures forall j :: 0 <= j < DivisionsFrom(x, k) ==> Abs(x) >= 1024.0 * Pow1024(j)
    ensures DivisionsFrom(x, k) < 6 ==> Abs(x) < 1024.0 * Pow1024(DivisionsFrom(x, k))
    decreases 6 - k
  {
    if k < 6 {
      ScaledBelow(x, Pow1024(k));
      if Abs(x / Pow1024(k)) >= 1024.0 {
        DivisionsFromIsFirst(x, k + 1);
      }
    }
  }

  /** The unit the loop stops at is the first one whose next step up exceeds |x|:
      every earlier unit was too small, and (unless the units ran out) this one is not. */
  lemma DivisionsIsFirstUnit(x: real)
    ensures Divisions(x) <= 6
    ensures forall j :: 0 <= j < Divisions(x) ==> Abs(x) >= 1024.0 * Pow1024(j)
    ensures Divisions(x) < 6 ==> Abs(x) < 1024.0 * Pow1024(Divisions(x))
  {
    DivisionsFromIsFirst(x, 0);
  }

  /** Threshold form of the unit choice, both directions: unit `k` is chosen exactly when
      1024^k <= |x| (or k is the first unit) and |x| < 1024^(k+1) (or k means the units ran out). */
  lemma DivisionsByThresholds(x: real, k: nat)
    requires k <= 6
    ensures Divisions(x) == k <==>
              (k == 0 || Pow1024(k) <= Abs(x)) && (k == 6 || Abs(x) < Pow1024(k + 1))
  {
    DivisionsIsFirstUnit(x);
    var d := Divisions(x);
    if d < k {
      PowMonotone(d + 1, k);
    } else if k < d {
      assert Abs(x) >= 1024.0 * Pow1024(k);
    }
  }

  /** For the units "" to "P" the printed magnitude is x scaled down to that unit: below 1024 in
      absolute value, at least 1 beyond the first unit, and times 1024^k it gives back x. */
  lemma MagnitudeInUnit(x: real, suffix: string)
    requires Divisions(x) < 6
    ensures var k := Divisions(x);
            var r := HumanSize(Some(x), suffix);
            r.Sized? && r.unit == Prefixes[k] + suffix &&
            Abs(r.magnitude) < 1024.0 &&
            (k > 0 ==> Abs(r.magnitude) >= 1.0) &&
            r.magnitude * Pow1024(k) == x
  {
    DivisionsIsFirstUnit(x);
    var k := Divisions(x);
    var p := Pow1024(k);
    ScaledBelow(x, p);
    ScaledBack(x, p);
    if k > 0 {
      assert Abs(x) >= 1024.0 * Pow1024(k - 1) == p;
      ScaledAtLeastOne(x, p);
    }
  }

  lemma ScaledBack(x: real, p: real)
    requires p > 0.0
    ensures x / p * p == x
  {
  }

  lemma ScaledAtLeastOne(x: real, p: real)
    requires p > 0.0 && Abs(x) >= p
    ensures Abs(x / p) >= 1.0
  {
    var m := x / p;
    assert x == m * p;
    assert Abs(x) == Abs(m) * p;
  }

  /** From 1024^6 on, the loop has divided six times, so what is labelled "P" is x / 1024^6,
      which is 1024 times smaller than the value of x in peta units (x / 1024^5). */
  lemma BeyondPetaLabelledP(x: real, suffix: string)
    requires Abs(x) >= Pow1024(6)
    ensures HumanSize(Some(x), suffix) == Sized(x / Pow1024(6), "P" + suffix)
    ensures HumanSize(Some(x), suffix).magnitude * 1024.0 == x / Pow1024(5)
  {
    DivisionsByThresholds(x, 6);
    DivideStep(x, Pow1024(5));
  }

  /** 4 GiB and 16 GiB of memory read as 4.0 GB and 16.0 GB; 1023 bytes stay in plain bytes. */
  lemma MemoryExamples()
    ensures HumanSize(Some(4294967296.0), "B") == Sized(4.0, "GB")
    ensures HumanSize(Some(17179869184.0), "B") == Sized(16.0, "GB")
    ensures HumanSize(Some(1023.0), "B") == Sized(1023.0, "B")
  {
    DivisionsByThresholds(4294967296.0, 3);
    DivisionsByThresholds(17179869184.0, 3);
    DivisionsByThresholds(1023.0, 0);
  }
}
