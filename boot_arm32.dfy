/*
 * The arm32 boot loader's `bootstrap` (boot/arch/arm32/src/main.c).
 *
 * The boot image carries a table of compressed components: the kernel
 * first, then the initial user tasks. `bootstrap` places them one after
 * another from the kernel's load address, each at a page-aligned offset,
 * records every component but the kernel in the boot-info task map, and
 * then decompresses them from the last to the first, halting when a
 * compressed image would be overwritten by its own output or when the
 * decompressor fails. Finally it jumps to the kernel.
 *
 * Addresses are unbounded numbers. The decompressor is an external call;
 * its status for each component is an input. Cache maintenance, the MMU
 * start and the final jump are recorded as events of a ghost trace, so
 * that their order can be stated. Console output is not modelled except
 * for the component name the "too large" message reads, which is the
 * subject of a finding.
 */
module BootArm32 {
  import opened Wrappers

  /** One entry of the `components` table: a compressed image. */
  datatype Component = Component(name: string, start: nat, size: nat, inflated: nat)

  /** One record of the boot-info task map. */
  datatype Task = Task(addr: nat, size: nat, name: string)

  /**
   * The constants `bootstrap` uses: PA2KA(BOOT_OFFSET) (where the kernel
   * goes, and the base of TOP2ADDR), TASKMAP_MAX_RECORDS,
   * BOOTINFO_TASK_NAME_BUFLEN and the bounds of the boot data.
   */
  datatype Config = Config(kernelBase: nat, maxRecords: nat,
                           nameBufLen: nat, bdataStart: nat, bdataEnd: nat)
  {
    /** The bounds of the boot data are the addresses of two `void *` objects, so word-aligned. */
    predicate Valid() {
      nameBufLen > 0 && bdataStart <= bdataEnd
      && bdataStart % WORD_SIZE == 0 && bdataEnd % WORD_SIZE == 0
    }
  }

  /** sizeof(void *) on arm32; also the step of the cache maintenance loops. */
  const WORD_SIZE: nat := 4

  /** The status `inflate` returns on success (EOK). */
  const EOK: int := 0

  /** Hardware effects, in the order they happen. */
  datatype Event =
    | InvalidateICache
    | InvalidateDCache(addr: nat, size: nat)
    | MmuStart
    | Inflate(component: nat)
    | CleanDCache(addr: nat, size: nat)
    | JumpToKernel(entry: nat)

  /**
   * Why the loader halted, and for which component. A "too large" halt also
   * carries the name its message prints (`None` for an entry read past the
   * end of the table).
   */
  datatype Halt =
    | TooLarge(component: nat, tail: nat, dest: nat, name: Option<string>)
    | InflateError(component: nat, code: int)
  {
    function Component(): nat {
      match this
      case TooLarge(c, _, _, _) => c
      case InflateError(c, _) => c
    }
  }

  /**
   * Whether invalidate_dcache(addr, size) (or clean_dcache_poc) issues its
   * maintenance operation at address `a`: the loop steps by 4 from `addr`
   * while below `addr + size`.
   */
  predicate Maintains(addr: nat, size: nat, a: nat) {
    addr <= a < addr + size && (a - addr) % WORD_SIZE == 0
  }

  datatype Outcome = Booted(entry: nat) | Halted(why: Halt)

  /* ---------------------------------------------------------------------- */
  /* Placement                                                               */
  /* ---------------------------------------------------------------------- */

  /** PAGE_SIZE: the 4 KiB small page of the arm32 port. */
  const PAGE_SIZE: nat := 4096

  /** ALIGN_UP(x, PAGE_SIZE): the least multiple of the page size that is at least `x`. */
  function AlignUp(x: nat): (r: nat)
    ensures r % PAGE_SIZE == 0 && x <= r < x + PAGE_SIZE
  {
    ((x + PAGE_SIZE - 1) / PAGE_SIZE) * PAGE_SIZE
  }

  /** `min(COMPONENTS, TASKMAP_MAX_RECORDS)`: how many components are placed. */
  function PlacedCount(components: nat, maxRecords: nat): (r: nat)
    ensures r <= components && r <= maxRecords
    ensures r == components || r == maxRecords
  {
    if components < maxRecords then components else maxRecords
  }

  /** The cursor `top` at the start of iteration `i` of the placement loop. */
  function Top(cs: seq<Component>, i: nat): nat
    requires i <= |cs|
  {
    if i == 0 then 0 else AlignUp(Top(cs, i - 1)) + cs[i - 1].inflated
  }

  /** Offset from the kernel's address at which component `i` is inflated. */
  function DestOffset(cs: seq<Component>, i: nat): (r: nat)
    requires i < |cs|
    ensures r % PAGE_SIZE == 0
    ensures i == 0 ==> r == 0
  {
    AlignUp(Top(cs, i))
  }

  /** `dest[i]`, i.e. TOP2ADDR of the aligned cursor. */
  function DestAddr(cs: seq<Component>, cfg: Config, i: nat): nat
    requires cfg.Valid() && i < |cs|
  {
    cfg.kernelBase + DestOffset(cs, i)
  }

  /** Each component's inflated image ends at or before the next one's destination. */
  lemma {:induction false} DestsIncrease(cs: seq<Component>, i: nat, j: nat)
    requires i < j < |cs|
    ensures DestOffset(cs, i) + cs[i].inflated <= DestOffset(cs, j)
  {
    if j > i + 1 {
      DestsIncrease(cs, i, j - 1);
    }
  }

  /** Destinations of distinct placed components do not overlap. */
  lemma DestsDisjoint(cs: seq<Component>, cfg: Config, i: nat, j: nat)
    requires cfg.Valid() && i < |cs| && j < |cs| && i != j
    ensures DestAddr(cs, cfg, i) + cs[i].inflated <= DestAddr(cs, cfg, j)
         || DestAddr(cs, cfg, j) + cs[j].inflated <= DestAddr(cs, cfg, i)
  {
    if i < j {
      DestsIncrease(cs, i, j);
    } else {
      DestsIncrease(cs, j, i);
    }
  }

  /**
   * str_cpy into a buffer of `size` bytes: as much of `src` as fits before
   * the terminating NUL.
   */
  function StrCpy(src: string, size: nat): (r: string)
    requires size > 0
    ensures |r| < size
    ensures r <= src
    ensures |src| < size ==> r == src
  {
    if |src| < size then src else src[..size - 1]
  }

  /** The task record `bootstrap` writes for component `j` (j > 0). */
  function TaskFor(cs: seq<Component>, cfg: Config, j: nat): Task
    requires cfg.Valid() && j < |cs|
  {
    Task(DestAddr(cs, cfg, j), cs[j].inflated, StrCpy(cs[j].name, cfg.nameBufLen))
  }

  /** The static `bootinfo`: a count and a task map of TASKMAP_MAX_RECORDS entries. */
  class BootInfo {
    var cnt: nat
    const tasks: array<Task>

    constructor (maxRecords: nat)
      ensures cnt == 0 && tasks.Length == maxRecords && fresh(tasks)
    {
      cnt := 0;
      tasks := new Task[maxRecords](_ => Task(0, 0, ""));
    }
  }

  /**
   * The placement loop: fills `dest` and the task map. The kernel, component
   * 0, gets no task record, so task `k` describes component `k + 1`.
   */
  method Place(cs: seq<Component>, cfg: Config, bi: BootInfo) returns (dest: array<nat>, cnt: nat)
    requires cfg.Valid() && bi.tasks.Length == cfg.maxRecords
    modifies bi, bi.tasks
    ensures fresh(dest) && dest.Length == |cs|
    ensures cnt == PlacedCount(|cs|, cfg.maxRecords)
    ensures forall k :: 0 <= k < cnt ==> dest[k] == DestAddr(cs, cfg, k)
    ensures bi.cnt == if cnt == 0 then 0 else cnt - 1
    ensures forall k :: 0 <= k < bi.cnt ==> bi.tasks[k] == TaskFor(cs, cfg, k + 1)
    ensures forall k :: bi.cnt <= k < bi.tasks.Length ==> bi.tasks[k] == old(bi.tasks[k])
  {
    dest := new nat[|cs|];
    var top := 0;
    cnt := 0;
    bi.cnt := 0;
    var i := 0;
    var n := PlacedCount(|cs|, cfg.maxRecords);
    while i < n
      invariant 0 <= i <= n && cnt == i
      invariant top == Top(cs, i)
      invariant bi.cnt == if i == 0 then 0 else i - 1
      invariant forall k :: 0 <= k < i ==> dest[k] == DestAddr(cs, cfg, k)
      invariant forall k :: 0 <= k < bi.cnt ==> bi.tasks[k] == TaskFor(cs, cfg, k + 1)
      invariant forall k :: bi.cnt <= k < bi.tasks.Length ==> bi.tasks[k] == old(bi.tasks[k])
    {
      top := AlignUp(top);
      if i > 0 {
        bi.tasks[bi.cnt] := Task(cfg.kernelBase + top, cs[i].inflated, StrCpy(cs[i].name, cfg.nameBufLen));
        bi.cnt := bi.cnt + 1;
      }
      dest[i] := cfg.kernelBase + top;
      top := top + cs[i].inflated;
      cnt := cnt + 1;
      i := i + 1;
    }
  }

  /* ---------------------------------------------------------------------- */
  /* Inflation                                                               */
  /* ---------------------------------------------------------------------- */

  /** The check at the head of the inflate loop passes: the compressed tail lies below the destination. */
  predicate Fits(c: Component, dest: nat) {
    c.start + c.size < dest
  }

  /** Component `j` fits below its destination `ds[j]` and inflates without error. */
  predicate Boots(cs: seq<Component>, ds: seq<nat>, status: seq<int>, j: nat)
    requires j < |cs| && j < |ds| && j < |status|
  {
    Fits(cs[j], ds[j]) && status[j] == EOK
  }

  /** Events of the inflate loop for components `hi - 1` down to `lo`, all successful. */
  function InflateEvents(cs: seq<Component>, dests: seq<nat>, hi: nat, lo: nat): seq<Event>
    requires lo <= hi <= |cs| && hi <= |dests|
    decreases hi - lo
  {
    if lo == hi then []
    else InflateEvents(cs, dests, hi, lo + 1) + [Inflate(lo), CleanDCache(dests[lo], cs[lo].inflated)]
  }

  /** The `p`-th event of a successful run: inflate, then clean, per component, from the top down. */
  function InflateEventAt(cs: seq<Component>, dests: seq<nat>, hi: nat, p: nat): Event
    requires p / 2 < hi <= |cs| && hi <= |dests|
  {
    var j := hi - 1 - p / 2;
    if p % 2 == 0 then Inflate(j) else CleanDCache(dests[j], cs[j].inflated)
  }

  /** The inflate-loop events, position by position. */
  lemma {:induction false} InflateEventsShape(cs: seq<Component>, dests: seq<nat>, hi: nat, lo: nat)
    requires lo <= hi <= |cs| && hi <= |dests|
    ensures |InflateEvents(cs, dests, hi, lo)| == 2 * (hi - lo)
    ensures forall p :: 0 <= p < |InflateEvents(cs, dests, hi, lo)| ==>
              InflateEvents(cs, dests, hi, lo)[p] == InflateEventAt(cs, dests, hi, p)
    decreases hi - lo
  {
    if lo < hi {
      InflateEventsShape(cs, dests, hi, lo + 1);
    }
  }

  /**
   * Components are inflated in strictly decreasing index order, and each
   * inflate is immediately followed by the cache clean of its own range.
   */
  lemma InflateOrder(cs: seq<Component>, dests: seq<nat>, hi: nat, lo: nat, p: nat, q: nat)
    requires lo <= hi <= |cs| && hi <= |dests|
    requires p < q < |InflateEvents(cs, dests, hi, lo)|
    requires InflateEvents(cs, dests, hi, lo)[p].Inflate?
    ensures p + 1 < |InflateEvents(cs, dests, hi, lo)| && InflateEvents(cs, dests, hi, lo)[p].component < hi
    ensures InflateEvents(cs, dests, hi, lo)[q].Inflate? ==>
              InflateEvents(cs, dests, hi, lo)[p].component > InflateEvents(cs, dests, hi, lo)[q].component
    ensures var j := InflateEvents(cs, dests, hi, lo)[p].component;
              InflateEvents(cs, dests, hi, lo)[p + 1] == CleanDCache(dests[j], cs[j].inflated)
  {
    InflateEventsShape(cs, dests, hi, lo);
    var e := InflateEvents(cs, dests, hi, lo);
    assert e[p] == InflateEventAt(cs, dests, hi, p);
    assert e[q] == InflateEventAt(cs, dests, hi, q);
    assert e[p + 1] == InflateEventAt(cs, dests, hi, p + 1);
  }

  /**
   * What a halt `h` of the inflate loop over the first `cnt` components
   * means: every component above `h`'s component booted, and `h`'s did not,
   * because its compressed tail reaches its destination (a "too large" halt,
   * whose message names the entry `choice` selects) or because inflating it
   * failed with `h`'s code.
   */
  predicate HaltedAt(cs: seq<Component>, ds: seq<nat>, status: seq<int>, cnt: nat, h: Halt, choice: NameChoice)
    requires cnt <= |cs| && cnt <= |ds| && |status| == |cs|
  {
    var j := h.Component();
    && j < cnt
    && (forall k :: j < k < cnt ==> Boots(cs, ds, status, k))
    && !Boots(cs, ds, status, j)
    && (h.TooLarge? <==> !Fits(cs[j], ds[j]))
    && (h.TooLarge? ==> && h.tail == cs[j].start + cs[j].size
                        && h.dest == ds[j]
                        && h.name == MessageName(cs, j + 1, choice))
    && (h.InflateError? ==> h.code == status[j])
  }

  /** The "too large" halt the loop makes at counter `i`, when every component from `i` up booted. */
  lemma TooLargeHalt(cs: seq<Component>, ds: seq<nat>, status: seq<int>, cnt: nat, i: nat, choice: NameChoice)
    requires 0 < i <= cnt <= |cs| && cnt <= |ds| && |status| == |cs|
    requires forall k :: i <= k < cnt ==> Boots(cs, ds, status, k)
    requires !Fits(cs[i - 1], ds[i - 1])
    ensures var h := TooLarge(i - 1, cs[i - 1].start + cs[i - 1].size, ds[i - 1], MessageName(cs, i, choice));
      HaltedAt(cs, ds, status, cnt, h, choice)
    ensures !forall k :: 0 <= k < cnt ==> Boots(cs, ds, status, k)
  {
    assert !Boots(cs, ds, status, i - 1);
  }

  /** The inflate-error halt the loop makes at counter `i`, when every component from `i` up booted. */
  lemma InflateErrorHalt(cs: seq<Component>, ds: seq<nat>, status: seq<int>, cnt: nat, i: nat, choice: NameChoice)
    requires 0 < i <= cnt <= |cs| && cnt <= |ds| && |status| == |cs|
    requires forall k :: i <= k < cnt ==> Boots(cs, ds, status, k)
    requires Fits(cs[i - 1], ds[i - 1]) && status[i - 1] != EOK
    ensures HaltedAt(cs, ds, status, cnt, InflateError(i - 1, status[i - 1]), choice)
    ensures !forall k :: 0 <= k < cnt ==> Boots(cs, ds, status, k)
  {
    assert !Boots(cs, ds, status, i - 1);
  }

  /**
   * The name a "too large" halt prints: as written, nothing for the last
   * component of the table and the next component's name otherwise;
   * corrected, the name of the component that failed the check.
   */
  lemma HaltName(cs: seq<Component>, ds: seq<nat>, status: seq<int>, cnt: nat, h: Halt, choice: NameChoice)
    requires cnt <= |cs| && cnt <= |ds| && |status| == |cs|
    requires HaltedAt(cs, ds, status, cnt, h, choice) && h.TooLarge?
    ensures choice.AsWritten? ==> (h.name.None? <==> h.component == |cs| - 1)
    ensures choice.AsWritten? && h.component + 1 < |cs| ==> h.name == Some(cs[h.component + 1].name)
    ensures choice.Corrected? ==> h.name == Some(cs[h.component].name)
  {
  }

  /**
   * The inflate loop, from component `cnt - 1` down to 0. It stops at the
   * first component whose compressed tail reaches its destination, or whose
   * decompression fails; `status[j]` is what `inflate` returns for
   * component `j`.
   */
  method InflateAll(cs: seq<Component>, dest: array<nat>, cnt: nat, status: seq<int>, choice: NameChoice)
    returns (halt: Option<Halt>, ghost events: seq<Event>)
    requires cnt <= |cs| && cnt <= dest.Length && |status| == |cs|
    ensures halt.None? <==> forall j :: 0 <= j < cnt ==> Boots(cs, dest[..cnt], status, j)
    ensures halt.None? ==> events == InflateEvents(cs, dest[..cnt], cnt, 0)
    ensures halt.Some? ==> HaltedAt(cs, dest[..cnt], status, cnt, halt.value, choice)
    ensures halt.Some? ==>
              var j := halt.value.Component();
              j < cnt &&
              events == InflateEvents(cs, dest[..cnt], cnt, j + 1)
                        + (if halt.value.InflateError? then [Inflate(j)] else [])
  {
    ghost var ds := dest[..cnt];
    events := [];
    var i := cnt;
    while i > 0
      invariant 0 <= i <= cnt
      invariant forall k :: i <= k < cnt ==> Boots(cs, ds, status, k)
      invariant events == InflateEvents(cs, ds, cnt, i)
    {
      var tail := cs[i - 1].start + cs[i - 1].size;
      assert dest[i - 1] == ds[i - 1];
      if tail >= dest[i - 1] {
        halt := Some(TooLarge(i - 1, tail, dest[i - 1], MessageName(cs, i, choice)));
        TooLargeHalt(cs, ds, status, cnt, i, choice);
        assert halt.value.Component() + 1 == i && events == InflateEvents(cs, ds, cnt, i) + [];
        return halt, events;
      }
      events := events + [Inflate(i - 1)];
      var err := status[i - 1];
      if err != EOK {
        halt := Some(InflateError(i - 1, err));
        InflateErrorHalt(cs, ds, status, cnt, i, choice);
        assert halt.value.Component() + 1 == i && events == InflateEvents(cs, ds, cnt, i) + [Inflate(i - 1)];
        return halt, events;
      }
      events := events + [CleanDCache(dest[i - 1], cs[i - 1].inflated)];
      assert events == InflateEvents(cs, ds, cnt, i - 1);
      i := i - 1;
    }
    halt := None;
  }

  /* ---------------------------------------------------------------------- */
  /* bootstrap                                                               */
  /* ---------------------------------------------------------------------- */

  /** The cache invalidations of the components, in table order. */
  function InvalidateComponents(cs: seq<Component>): seq<Event>
  {
    if cs == [] then []
    else InvalidateComponents(cs[..|cs| - 1]) + [InvalidateDCache(cs[|cs| - 1].start, cs[|cs| - 1].size)]
  }

  /**
   * The invalidation of the boot data as written: the size passed is the
   * difference of two `void **` pointers, so it counts words, while
   * invalidate_dcache takes a size in bytes.
   */
  function BootDataInvalidation(cfg: Config): (e: Event)
    requires cfg.Valid()
    ensures e.InvalidateDCache? && e.addr == cfg.bdataStart
    ensures e.size * WORD_SIZE == cfg.bdataEnd - cfg.bdataStart
  {
    InvalidateDCache(cfg.bdataStart, (cfg.bdataEnd - cfg.bdataStart) / WORD_SIZE)
  }

  /**
   * With at least two words of boot data, the invalidation as written stops
   * short: the last word of the boot data is never invalidated.
   */
  lemma BootDataInvalidationMisses(cfg: Config)
    requires cfg.Valid() && cfg.bdataEnd - cfg.bdataStart >= 2 * WORD_SIZE
    ensures var e := BootDataInvalidation(cfg);
      !Maintains(e.addr, e.size, cfg.bdataEnd - WORD_SIZE)
      && e.addr + e.size < cfg.bdataEnd
  {
    var e := BootDataInvalidation(cfg);
    assert e.size < e.size * WORD_SIZE - WORD_SIZE + 1;
  }

  /** The invalidation the comment at main.c:84-88 asks for: every word of the boot data, in bytes. */
  function BootDataInvalidationCorrected(cfg: Config): (e: Event)
    requires cfg.Valid()
    ensures e.InvalidateDCache? && e.addr == cfg.bdataStart
    ensures forall a: nat :: Maintains(e.addr, e.size, a) <==>
              cfg.bdataStart <= a < cfg.bdataEnd && (a - cfg.bdataStart) % WORD_SIZE == 0
  {
    InvalidateDCache(cfg.bdataStart, cfg.bdataEnd - cfg.bdataStart)
  }

  /** Everything `bootstrap` does before placing the components, boot-data invalidation as written. */
  function Setup(cs: seq<Component>, cfg: Config): seq<Event>
    requires cfg.Valid()
  {
    [InvalidateICache, BootDataInvalidation(cfg), MmuStart]
    + InvalidateComponents(cs)
  }

  /**
   * The start of `bootstrap`: invalidates the instruction cache and the data
   * cache from the start of the boot data (over the word count, as written),
   * starts the MMU and invalidates the data cache over each component.
   */
  method PrepareCaches(cs: seq<Component>, cfg: Config) returns (ghost trace: seq<Event>)
    requires cfg.Valid()
    ensures trace == Setup(cs, cfg)
  {
    trace := [InvalidateICache, InvalidateDCache(cfg.bdataStart, (cfg.bdataEnd - cfg.bdataStart) / WORD_SIZE), MmuStart];
    var i := 0;
    while i < |cs|
      invariant 0 <= i <= |cs|
      invariant trace == [InvalidateICache, BootDataInvalidation(cfg), MmuStart]
                         + InvalidateComponents(cs[..i])
    {
      assert cs[..i + 1][..i] == cs[..i];
      trace := trace + [InvalidateDCache(cs[i].start, cs[i].size)];
      i := i + 1;
    }
    assert cs[..|cs|] == cs;
  }

  /** The destinations of the placed components. */
  function Dests(cs: seq<Component>, cfg: Config, cnt: nat): (r: seq<nat>)
    requires cfg.Valid() && cnt <= |cs|
    ensures |r| == cnt && forall k :: 0 <= k < cnt ==> r[k] == DestAddr(cs, cfg, k)
  {
    seq(cnt, k requires 0 <= k < cnt => DestAddr(cs, cfg, k))
  }

  /**
   * bootstrap: invalidates the caches, starts the MMU, places the components,
   * inflates them from the last to the first and jumps to the kernel, or
   * halts.
   */
  method Bootstrap(cs: seq<Component>, status: seq<int>, cfg: Config, bi: BootInfo)
    returns (outcome: Outcome, ghost trace: seq<Event>)
    requires cfg.Valid() && |status| == |cs| && bi.tasks.Length == cfg.maxRecords
    modifies bi, bi.tasks
    ensures var cnt := PlacedCount(|cs|, cfg.maxRecords);
      && bi.cnt == (if cnt == 0 then 0 else cnt - 1)
      && (forall k :: 0 <= k < bi.cnt ==> bi.tasks[k] == TaskFor(cs, cfg, k + 1))
    ensures forall k :: bi.cnt <= k < bi.tasks.Length ==> bi.tasks[k] == old(bi.tasks[k])
    ensures outcome.Booted? <==>
              var cnt := PlacedCount(|cs|, cfg.maxRecords);
              forall j :: 0 <= j < cnt ==> Boots(cs, Dests(cs, cfg, cnt), status, j)
    ensures outcome.Booted? ==> outcome.entry == cfg.kernelBase
    ensures outcome.Booted? ==>
              var cnt := PlacedCount(|cs|, cfg.maxRecords);
              trace == Setup(cs, cfg) + InflateEvents(cs, Dests(cs, cfg, cnt), cnt, 0)
                       + [JumpToKernel(cfg.kernelBase)]
    ensures outcome.Halted? ==>
              var cnt := PlacedCount(|cs|, cfg.maxRecords);
              HaltedAt(cs, Dests(cs, cfg, cnt), status, cnt, outcome.why, AsWritten)
    ensures outcome.Halted? ==>
              var j := outcome.why.Component();
              var cnt := PlacedCount(|cs|, cfg.maxRecords);
              j < cnt &&
              trace == Setup(cs, cfg) + (InflateEvents(cs, Dests(cs, cfg, cnt), cnt, j + 1)
                                         + (if outcome.why.InflateError? then [Inflate(j)] else []))
  {
    trace := PrepareCaches(cs, cfg);
    var dest, cnt := Place(cs, cfg, bi);
    assert dest[..cnt] == Dests(cs, cfg, cnt);
    var halt, events := InflateAll(cs, dest, cnt, status, AsWritten);
    trace := trace + events;
    if halt.Some? {
      return Halted(halt.value), trace;
    }
    trace := trace + [JumpToKernel(cfg.kernelBase)];
    outcome := Booted(cfg.kernelBase);
  }

  /* ---------------------------------------------------------------------- */
  /* The name in the "too large" message                                     */
  /* ---------------------------------------------------------------------- */

  /** Reading `components[k].name`; `None` when `k` is past the end of the table. */
  function NameAt(cs: seq<Component>, k: nat): (r: Option<string>)
    ensures r.Some? <==> k < |cs|
    ensures r.Some? ==> r.value == cs[k].name
  {
    if k < |cs| then Some(cs[k].name) else None
  }

  /**
   * Which entry the "too large" message at loop counter `i` names:
   * `components[i]`, as main.c:137-138 has it, or `components[i - 1]`, the
   * component whose check failed.
   */
  datatype NameChoice = AsWritten | Corrected

  /** The name the "too large" message prints at loop counter `i`. */
  function MessageName(cs: seq<Component>, i: nat, choice: NameChoice): (r: Option<string>)
    requires 0 < i <= |cs|
    ensures choice.AsWritten? ==> (r.None? <==> i == |cs|)
    ensures choice.AsWritten? && i < |cs| ==> r == Some(cs[i].name)
    ensures choice.Corrected? ==> r == Some(cs[i - 1].name)
  {
    match choice
    case AsWritten => NameAt(cs, i)
    case Corrected => NameAt(cs, i - 1)
  }

  /**
   * A one-component table whose compressed image reaches past the kernel's
   * address halts at loop counter 1, where the message as written reads past
   * the table.
   */
  lemma TooLargeExample(cfg: Config)
    requires cfg.Valid()
    ensures var cs := [Component("kernel", cfg.kernelBase, 16, 4096)];
      && !Fits(cs[0], DestAddr(cs, cfg, 0))
      && MessageName(cs, 1, AsWritten) == None
      && MessageName(cs, 1, Corrected) == Some("kernel")
  {
  }
}
