/** `get_presence_variants` (discord.py:176-223): the ordered pool of (details, state) line pairs
    that one presence update chooses from. Numbers keep their value and their count of decimals;
    the digits themselves are not rendered. */
module Variants {
  import opened Facets
  import opened Units

  /** One piece of an f-string: literal text, a number printed with a fixed count of decimals
      (`:.1f`, `:.0f`), or a byte count passed through `human_readable`. */
  datatype Piece = Text(text: string) | Fixed(value: real, decimals: nat) | Size(reading: Readable)

  type Line = seq<Piece>

  /** The six candidates, named by what their two lines show, in the order the code appends them. */
  datatype Kind = CpuRam | DiskNet | CpuDisk | RamNet | CpuFrequency | RamSwap

  /** A candidate: its kind, its `details` (title) line and its `state` (subtitle) line. */
  datatype Variant = Variant(kind: Kind, details: Line, state: Line)

  /** Position of each kind in the order of the appends. */
  function Rank(k: Kind): (r: nat)
    ensures r < 6
  {
    match k
    case CpuRam => 0
    case DiskNet => 1
    case CpuDisk => 2
    case RamNet => 3
    case CpuFrequency => 4
    case RamSwap => 5
  }

  /** The kind appended at position `n`. */
  function KindAt(n: nat): (k: Kind)
    requires n < 6
    ensures Rank(k) == n
  {
    if n == 0 then CpuRam else if n == 1 then DiskNet else if n == 2 then CpuDisk
    else if n == 3 then RamNet else if n == 4 then CpuFrequency else RamSwap
  }

  /** The arguments of `get_presence_variants`, with the OS name `os_suffix` uses. */
  datatype Inputs = Inputs(cpu: CpuReading, mem: MemoryReading, disk: Option<DiskReading>,
                           net: Option<NetReading>, showOs: bool, osName: string)

  /** Whether the facets at hand admit a candidate of kind `k` (the guard of its append). */
  predicate Eligible(k: Kind, args: Inputs) {
    match k
    case CpuRam => true
    case DiskNet => args.disk.Some? && args.net.Some?
    case CpuDisk => args.disk.Some?
    case RamNet => args.net.Some?
    case CpuFrequency => args.cpu.frequency.Some? && args.showOs
    case RamSwap => SwapTotal(args.mem) > 0 && SwapPercent(args.mem) > 5.0
  }

  function Bytes(n: nat): Piece {
    Size(HumanSize(Some(n as real), "B"))
  }

  /** `os_suffix`: " | <OS name>" when the OS is shown, nothing otherwise. */
  function OsSuffix(showOs: bool, osName: string): Line {
    if showOs then [Text(" | " + osName)] else []
  }

  function CpuLine(cpu: CpuReading): Line {
    [Text("CPU: "), Fixed(cpu.overall, 1), Text("%")]
  }

  function RamLine(mem: MemoryReading): Line {
    [Text("RAM: "), Fixed(mem.percent, 1), Text("% ("), Bytes(mem.used), Text("/"), Bytes(mem.total), Text(")")]
  }

  function DiskLine(disk: DiskReading): Line {
    [Text("Disk R/W: "), Bytes(disk.readBytes), Text("/"), Bytes(disk.writeBytes)]
  }

  function NetLine(net: NetReading): Line {
    [Text("Net S/R: "), Bytes(net.bytesSent), Text("/"), Bytes(net.bytesRecv)]
  }

  /** The two lines of the candidate of kind `k`, as its append formats them. */
  function Render(k: Kind, args: Inputs): (v: Variant)
    requires Eligible(k, args)
    ensures v.kind == k
  {
    var suffix := OsSuffix(args.showOs, args.osName);
    match k
    case CpuRam => Variant(k, CpuLine(args.cpu) + suffix, RamLine(args.mem))
    case DiskNet => Variant(k, DiskLine(args.disk.value) + suffix, NetLine(args.net.value))
    case CpuDisk => Variant(k, CpuLine(args.cpu) + suffix, DiskLine(args.disk.value))
    case RamNet => Variant(k, RamLine(args.mem) + suffix, NetLine(args.net.value))
    case CpuFrequency =>
      Variant(k, [Text("CPU: "), Fixed(args.cpu.overall, 1), Text("% @ "), Fixed(args.cpu.frequency.value.current, 0), Text("MHz")],
                 [Text("RAM: "), Fixed(args.mem.percent, 1), Text("% | " + args.osName)])
    case RamSwap =>
      Variant(k, [Text("RAM: "), Fixed(args.mem.percent, 1), Text("% | Swap: "), Fixed(SwapPercent(args.mem), 1), Text("%")] + suffix,
                 [Text("Physical: "), Bytes(args.mem.used), Text("/"), Bytes(args.mem.total)])
  }

  function KindsOf(vs: seq<Variant>): (ks: seq<Kind>)
    ensures |ks| == |vs| && forall i :: 0 <= i < |vs| ==> ks[i] == vs[i].kind
  {
    seq(|vs|, i requires 0 <= i < |vs| => vs[i].kind)
  }

  /** Strictly increasing in the order of the appends: no kind twice, none out of order. */
  predicate Ranked(ks: seq<Kind>) {
    forall i, j :: 0 <= i < j < |ks| ==> Rank(ks[i]) < Rank(ks[j])
  }

  /** The composition rules of the pool: the candidates appear in the order of the appends,
      a kind appears exactly when its facets are present, and each is formatted as its append formats it. */
  ghost predicate IsPool(vs: seq<Variant>, args: Inputs) {
    Ranked(KindsOf(vs)) &&
    (forall k :: k in KindsOf(vs) <==> Eligible(k, args)) &&
    AllRendered(vs, args)
  }

  /** Every candidate is eligible and formatted as its append formats it. */
  ghost predicate AllRendered(vs: seq<Variant>, args: Inputs) {
    forall i :: 0 <= i < |vs| ==> Eligible(vs[i].kind, args) && vs[i] == Render(vs[i].kind, args)
  }

  /** The eligible kinds among the first `n` positions of the append order, in that order. */
  function EligibleBelow(n: nat, args: Inputs): seq<Kind>
    requires n <= 6
  {
    if n == 0 then []
    else EligibleBelow(n - 1, args) + (if Eligible(KindAt(n - 1), args) then [KindAt(n - 1)] else [])
  }

  /** Appending a kind that outranks every member keeps a sequence ranked. */
  lemma RankedSnoc(ks: seq<Kind>, k: Kind)
    requires Ranked(ks)
    requires forall x :: x in ks ==> Rank(x) < Rank(k)
    ensures Ranked(ks + [k])
  {
    var r := ks + [k];
    forall i, j | 0 <= i < j < |r| ensures Rank(r[i]) < Rank(r[j]) {
      assert r[i] == ks[i];
      if j == |ks| {
        assert r[i] in ks;
      } else {
        assert r[j] == ks[j];
      }
    }
  }

  /** The eligible kinds below position `n` are ranked, and are exactly the eligible kinds of rank below `n`. */
  lemma {:induction false} EligibleBelowRules(n: nat, args: Inputs)
    requires n <= 6
    ensures Ranked(EligibleBelow(n, args))
    ensures forall k :: k in EligibleBelow(n, args) <==> Rank(k) < n && Eligible(k, args)
  {
    if n > 0 {
      EligibleBelowRules(n - 1, args);
      var prev := EligibleBelow(n - 1, args);
      var k := KindAt(n - 1);
      if Eligible(k, args) {
        RankedSnoc(prev, k);
      }
      forall x ensures x in EligibleBelow(n, args) <==> Rank(x) < n && Eligible(x, args) {
        if Rank(x) == n - 1 {
          RankInjective(x, k);
        }
      }
    }
  }

  lemma KindsOfAppend(vs: seq<Variant>, v: Variant)
    ensures KindsOf(vs + [v]) == KindsOf(vs) + [v.kind]
  {
  }

  /** One guarded append: the candidate at position `n` joins the pool exactly when it is eligible. */
  lemma AppendStep(vs: seq<Variant>, n: nat, args: Inputs)
    requires n < 6
    requires KindsOf(vs) == EligibleBelow(n, args) && AllRendered(vs, args)
    ensures var next := if Eligible(KindAt(n), args) then vs + [Render(KindAt(n), args)] else vs;
            KindsOf(next) == EligibleBelow(n + 1, args) && AllRendered(next, args)
  {
    if Eligible(KindAt(n), args) {
      KindsOfAppend(vs, Render(KindAt(n), args));
    }
  }

  /** `get_presence_variants`: builds the pool by appending, one guarded append per kind. */
  method PresenceVariants(cpu: CpuReading, mem: MemoryReading, disk: Option<DiskReading>,
                          net: Option<NetReading>, showOs: bool, osName: string) returns (variants: seq<Variant>)
    ensures IsPool(variants, Inputs(cpu, mem, disk, net, showOs, osName))
  {
    var args := Inputs(cpu, mem, disk, net, showOs, osName);
    variants := [];
    AppendStep(variants, 0, args);
    variants := variants + [Render(CpuRam, args)];
    AppendStep(variants, 1, args);
    if disk.Some? && net.Some? {
      variants := variants + [Render(DiskNet, args)];
    }
    AppendStep(variants, 2, args);
    if disk.Some? {
      variants := variants + [Render(CpuDisk, args)];
    }
    AppendStep(variants, 3, args);
    if net.Some? {
      variants := variants + [Render(RamNet, args)];
    }
    AppendStep(variants, 4, args);
    if cpu.frequency.Some? && showOs {
      variants := variants + [Render(CpuFrequency, args)];
    }
    AppendStep(variants, 5, args);
    if SwapTotal(mem) > 0 && SwapPercent(mem) > 5.0 {
      variants := variants + [Render(RamSwap, args)];
    }
    assert KindsOf(variants) == EligibleBelow(6, args) && AllRendered(variants, args);
    EligibleBelowRules(6, args);
  }

  function Indicator(b: bool): nat {
    if b then 1 else 0
  }

  /** The size the pool should have: one for CPU & RAM plus one per satisfied guard. */
  function PoolSize(args: Inputs): nat {
    1 + Indicator(args.disk.Some? && args.net.Some?) + Indicator(args.disk.Some?) + Indicator(args.net.Some?)
      + Indicator(args.cpu.frequency.Some? && args.showOs) + Indicator(SwapTotal(args.mem) > 0 && SwapPercent(args.mem) > 5.0)
  }

  lemma RankInjective(a: Kind, b: Kind)
    requires Rank(a) == Rank(b)
    ensures a == b
  {
  }

  /** The head of a ranked sequence ranks below everything after it, and the tail is ranked. */
  lemma RankedTail(a: seq<Kind>)
    requires Ranked(a) && a != []
    ensures Ranked(a[1..])
    ensures forall k :: k in a[1..] ==> Rank(a[0]) < Rank(k)
    ensures forall k :: k in a <==> k == a[0] || k in a[1..]
  {
    assert a == [a[0]] + a[1..];
    forall k | k in a[1..] ensures Rank(a[0]) < Rank(k) {
      var m :| 0 <= m < |a[1..]| && a[1..][m] == k;
      assert a[m + 1] == k;
    }
    forall i, j | 0 <= i < j < |a[1..]| ensures Rank(a[1..][i]) < Rank(a[1..][j]) {
      assert a[1..][i] == a[i + 1] && a[1..][j] == a[j + 1];
    }
  }

  /** A strictly ranked sequence of kinds is determined by its members: order and membership
      of the pool leave no choice. */
  lemma {:induction false} RankedUnique(a: seq<Kind>, b: seq<Kind>)
    requires Ranked(a) && Ranked(b)
    requires forall k :: k in a <==> k in b
    ensures a == b
    decreases |a|
  {
    assert a != [] ==> a[0] in a;
    assert b != [] ==> b[0] in b;
    if a != [] {
      assert a[0] in a;
      assert b != [];
      RankedTail(a);
      RankedTail(b);
      assert Rank(b[0]) <= Rank(a[0]) && Rank(a[0]) <= Rank(b[0]);
      RankInjective(a[0], b[0]);
      forall k ensures k in a[1..] <==> k in b[1..] {
      }
      RankedUnique(a[1..], b[1..]);
      assert a == [a[0]] + a[1..] && b == [b[0]] + b[1..];
    }
  }

  /** The kinds of any pool are the eligible kinds in the order of the appends. */
  lemma PoolKinds(vs: seq<Variant>, args: Inputs)
    requires IsPool(vs, args)
    ensures KindsOf(vs) == EligibleBelow(6, args)
  {
    EligibleBelowRules(6, args);
    RankedUnique(KindsOf(vs), EligibleBelow(6, args));
  }

  /** Pool size: 1 + [disk and net] + [disk] + [net] + [frequency and show_os] + [swap total > 0 and swap percent > 5]. */
  lemma PoolSizeFormula(vs: seq<Variant>, args: Inputs)
    requires IsPool(vs, args)
    ensures |vs| == PoolSize(args)
  {
    PoolKinds(vs, args);
    EligibleBelowSize(args);
  }

  lemma EligibleBelowSize(args: Inputs)
    ensures |EligibleBelow(6, args)| == PoolSize(args)
  {
    assert |EligibleBelow(1, args)| == 1;
    assert |EligibleBelow(2, args)| == 1 + Indicator(args.disk.Some? && args.net.Some?);
    assert |EligibleBelow(3, args)| == |EligibleBelow(2, args)| + Indicator(args.disk.Some?);
    assert |EligibleBelow(4, args)| == |EligibleBelow(3, args)| + Indicator(args.net.Some?);
    assert |EligibleBelow(5, args)| == |EligibleBelow(4, args)| + Indicator(args.cpu.frequency.Some? && args.showOs);
  }

  lemma {:induction false} EligibleBelowStartsWithCpuRam(n: nat, args: Inputs)
    requires 1 <= n <= 6
    ensures |EligibleBelow(n, args)| >= 1 && EligibleBelow(n, args)[0] == CpuRam
  {
    if n > 1 {
      EligibleBelowStartsWithCpuRam(n - 1, args);
    }
  }

  /** The pool is never empty and always opens with the CPU & RAM candidate. */
  lemma PoolStartsWithCpuRam(vs: seq<Variant>, args: Inputs)
    requires IsPool(vs, args)
    ensures |vs| >= 1
    ensures vs[0] == Render(CpuRam, args)
  {
    PoolKinds(vs, args);
    EligibleBelowStartsWithCpuRam(6, args);
    assert KindsOf(vs)[0] == vs[0].kind;
  }

  /** With only CPU and memory readings, no swap and no OS display, the pool is the CPU & RAM candidate alone. */
  lemma OnlyCpuAndMemory(vs: seq<Variant>, cpu: CpuReading, mem: MemoryReading, osName: string)
    requires IsPool(vs, Inputs(cpu, mem, None, None, false, osName))
    requires mem.swap.None?
    ensures vs == [Render(CpuRam, Inputs(cpu, mem, None, None, false, osName))]
  {
    PoolSizeFormula(vs, Inputs(cpu, mem, None, None, false, osName));
    PoolStartsWithCpuRam(vs, Inputs(cpu, mem, None, None, false, osName));
  }

  /** The swap candidate is in the pool exactly when swap is reported with a non-zero total and
      strictly more than 5 percent used: at exactly 5 percent, or with no swap keys, it is absent. */
  lemma SwapCandidateIsStrict(vs: seq<Variant>, args: Inputs)
    requires IsPool(vs, args)
    ensures RamSwap in KindsOf(vs) <==> args.mem.swap.Some? && args.mem.swap.value.total > 0 && args.mem.swap.value.percent > 5.0
    ensures args.mem.swap.None? || args.mem.swap.value.percent == 5.0 ==> RamSwap !in KindsOf(vs)
  {
  }

  /** The frequency candidate needs both a frequency reading and the OS display flag. */
  lemma FrequencyCandidateNeedsShowOs(vs: seq<Variant>, args: Inputs)
    requires IsPool(vs, args)
    ensures CpuFrequency in KindsOf(vs) <==> args.cpu.frequency.Some? && args.showOs
  {
  }
}
