/**
 Disk totals: the kernel lists a disk and its partitions side by side, so counters are grouped
 by the disk's name and the largest of each group is taken before adding up. Counters are
 unsigned 64-bit and sums wrap.
 */
module DiskCounters {
  import opened Outcomes
  import opened Text
  import opened Sums

  const WRAP := 0x1_0000_0000_0000_0000

  datatype Counter = ReadBytes | WriteBytes | ReadOps | WriteOps

  datatype DiskStat = DiskStat(device: string, readBytes: nat, writeBytes: nat, readOps: nat, writeOps: nat) {
    function Get(c: Counter): (n: nat) {
      match c
      case ReadBytes => readBytes
      case WriteBytes => writeBytes
      case ReadOps => readOps
      case WriteOps => writeOps
    }
  }

  datatype Totals = Totals(readBytes: nat, writeBytes: nat, readOps: nat, writeOps: nat) {
    function Get(c: Counter): (n: nat) {
      match c
      case ReadBytes => readBytes
      case WriteBytes => writeBytes
      case ReadOps => readOps
      case WriteOps => writeOps
    }
  }

  // ---- Device names ----

  predicate HasPrefix(s: string, prefix: string) {
    prefix <= s
  }

  predicate IsDigit(c: char) {
    '0' <= c <= '9'
  }

  predicate AllDigits(s: string) {
    s != "" && forall i :: 0 <= i < |s| ==> IsDigit(s[i])
  }

  /** Position of the last occurrence, or -1. */
  function LastIndex(s: string, c: char): (i: int)
    ensures -1 <= i < |s|
    ensures i >= 0 ==> s[i] == c
    ensures forall j :: i < j < |s| ==> s[j] != c
  {
    if s == "" then -1
    else if s[|s| - 1] == c then |s| - 1
    else LastIndex(s[..|s| - 1], c)
  }

  function StripDigits(s: string): (r: string)
    ensures r <= s
    ensures r != "" ==> !IsDigit(r[|r| - 1])
  {
    if s != "" && IsDigit(s[|s| - 1]) then StripDigits(s[..|s| - 1]) else s
  }

  function ToLower(s: string): (r: string)
    ensures |r| == |s|
  {
    seq(|s|, i requires 0 <= i < |s| => if 'A' <= s[i] <= 'Z' then ((s[i] as int) + 32) as char else s[i])
  }

  function StripSlashes(s: string): (r: string)
    ensures r <= s
  {
    if s != "" && s[|s| - 1] == '/' then StripSlashes(s[..|s| - 1]) else s
  }

  /** `filepath.Base` with `/` as the separator. */
  function Base(path: string): (r: string) {
    if path == "" then "."
    else
      var s := StripSlashes(path);
      if s == "" then "/" else s[LastIndex(s, '/') + 1..]
  }

  /** The disk a cleaned device name belongs to, on Linux. */
  function DiskOf(name: string): (disk: string)
    ensures disk <= name
  {
    if HasPrefix(name, "nvme") || HasPrefix(name, "mmcblk") then
      var idx := LastIndex(name, 'p');
      if idx > 0 && AllDigits(name[idx + 1..]) then name[..idx] else name
    else if HasPrefix(name, "sd") || HasPrefix(name, "vd") || HasPrefix(name, "xvd") || HasPrefix(name, "hd") then
      if AllDigits(name) then name else StripDigits(name)
    else name
  }

  function NormalizeDiskName(device: string, linux: bool): (name: string) {
    var name := ToLower(TrimSpace(Base(device)));
    if linux then DiskOf(name) else name
  }

  predicate SkipDiskCounter(name: string) {
    name == "" || HasPrefix(name, "loop") || HasPrefix(name, "ram") || HasPrefix(name, "fd")
  }

  lemma {:induction false} StripDigitsOnly(disk: string, digits: string)
    requires forall i :: 0 <= i < |digits| ==> IsDigit(digits[i])
    requires disk != "" && !IsDigit(disk[|disk| - 1])
    ensures StripDigits(disk + digits) == disk
  {
    if digits == "" {
      assert disk + digits == disk;
    } else {
      StripDigitsOnly(disk, digits[..|digits| - 1]);
      assert (disk + digits)[..|disk + digits| - 1] == disk + digits[..|digits| - 1];
    }
  }

  predicate NumberedStyle(disk: string) {
    HasPrefix(disk, "sd") || HasPrefix(disk, "vd") || HasPrefix(disk, "xvd") || HasPrefix(disk, "hd")
  }

  predicate LetteredStyle(disk: string) {
    HasPrefix(disk, "nvme") || HasPrefix(disk, "mmcblk")
  }

  /** A SCSI-style partition, such as sda1, belongs to the disk without its number, and the disk to itself. */
  lemma NumberedPartitionOfDisk(disk: string, digits: string)
    requires NumberedStyle(disk) && !IsDigit(disk[|disk| - 1]) && forall i :: 0 <= i < |digits| ==> IsDigit(digits[i])
    ensures DiskOf(disk + digits) == disk
  {
    var name := disk + digits;
    assert name[0] == disk[0] && name[1] == disk[1];
    assert name[..2] == disk[..2];
    assert HasPrefix(disk, "xvd") ==> name[..3] == disk[..3];
    assert !IsDigit(name[0]);
    StripDigitsOnly(disk, digits);
  }

  /** An NVMe or MMC partition, such as nvme0n1p2, belongs to the disk before the last p. */
  lemma LetteredPartitionOfDisk(disk: string, digits: string)
    requires LetteredStyle(disk) && AllDigits(digits)
    ensures DiskOf(disk + "p" + digits) == disk
  {
    var name := disk + "p" + digits;
    assert HasPrefix(name, "nvme") || HasPrefix(name, "mmcblk");
    assert name[|disk|] == 'p';
    assert forall i :: |disk| < i < |name| ==> name[i] == digits[i - |disk| - 1];
    assert LastIndex(name, 'p') == |disk|;
    assert name[|disk| + 1..] == digits;
    assert name[..|disk|] == disk;
  }

  // ---- Whole device paths ----

  /** Lower-case letters and digits only, as the kernel names its disks. */
  predicate PlainName(name: string) {
    name != "" && forall i :: 0 <= i < |name| ==> 'a' <= name[i] <= 'z' || IsDigit(name[i])
  }

  lemma BaseOfDevice(name: string)
    requires PlainName(name)
    ensures Base("/dev/" + name) == name
  {
    var path := "/dev/" + name;
    assert path[|path| - 1] == name[|name| - 1];
    assert StripSlashes(path) == path;
    assert path[4] == '/';
    assert forall i :: 5 <= i < |path| ==> path[i] == name[i - 5];
    assert LastIndex(path, '/') == 4;
    assert path[5..] == name;
  }

  lemma PlainIsUntouched(name: string)
    requires PlainName(name)
    ensures ToLower(TrimSpace(name)) == name
  {
    assert TrimLeft(name) == name;
    assert TrimRight(name) == name;
  }

  lemma NormalizedDevice(name: string)
    requires PlainName(name)
    ensures NormalizeDiskName("/dev/" + name, true) == DiskOf(name)
  {
    BaseOfDevice(name);
    PlainIsUntouched(name);
  }

  /** `part` is a partition of `disk`: sda1 of sda, xvda1 of xvda, nvme0n1p2 of nvme0n1. */
  ghost predicate PartitionOf(part: string, disk: string) {
    || (NumberedStyle(disk) && !IsDigit(disk[|disk| - 1]) && exists digits :: AllDigits(digits) && part == disk + digits)
    || (LetteredStyle(disk) && 'p' !in disk && exists digits :: AllDigits(digits) && part == disk + "p" + digits)
  }

  lemma PartitionBelongsToDisk(part: string, disk: string)
    requires PartitionOf(part, disk)
    ensures DiskOf(part) == disk && DiskOf(disk) == disk && !SkipDiskCounter(disk)
  {
    DisksAreNotSkipped(disk);
    if LetteredStyle(disk) && 'p' !in disk {
      LetteredIsNotNumbered(disk);
      var digits :| AllDigits(digits) && part == disk + "p" + digits;
      LetteredPartitionOfDisk(disk, digits);
    } else {
      var digits :| AllDigits(digits) && part == disk + digits;
      NumberedPartitionOfDisk(disk, digits);
      NumberedPartitionOfDisk(disk, "");
      assert disk + "" == disk;
    }
  }

  lemma DisksAreNotSkipped(disk: string)
    requires NumberedStyle(disk) || LetteredStyle(disk)
    ensures !SkipDiskCounter(disk)
  {
    assert disk[0] in {'s', 'v', 'x', 'h', 'n', 'm'};
    assert "loop"[0] == 'l' && "ram"[0] == 'r' && "fd"[0] == 'f';
  }

  lemma LetteredIsNotNumbered(disk: string)
    requires LetteredStyle(disk)
    ensures !NumberedStyle(disk)
  {
    assert disk[0] == 'n' || disk[0] == 'm';
  }

  lemma PlainDisk(part: string, disk: string)
    requires PartitionOf(part, disk) && PlainName(part)
    ensures PlainName(disk)
  {
    assert disk <= part;
    assert forall i :: 0 <= i < |disk| ==> disk[i] == part[i];
  }

  // ---- Totals ----

  type Stats = seq<Option<DiskStat>>

  /** An entry that counts, under the name of its disk. */
  datatype Entry = Entry(disk: string, stat: DiskStat)

  /** What counts: not missing and not of a skipped device. */
  function EntryOf(stat: Option<DiskStat>, linux: bool): (e: Option<Entry>)
    ensures e.Some? ==> !SkipDiskCounter(e.value.disk)
  {
    if stat.None? || SkipDiskCounter(NormalizeDiskName(stat.value.device, linux)) then None
    else Some(Entry(NormalizeDiskName(stat.value.device, linux), stat.value))
  }

  function Entries(stats: Stats, linux: bool): (r: seq<Entry>) {
    if stats == [] then []
    else
      var before, last := Entries(stats[..|stats| - 1], linux), EntryOf(stats[|stats| - 1], linux);
      if last.None? then before else before + [last.value]
  }

  function Max(a: nat, b: nat): (m: nat) {
    if a >= b then a else b
  }

  /** The largest value of a counter among the entries of a disk, zero if it has none. */
  function Largest(entries: seq<Entry>, disk: string, c: Counter): (n: nat) {
    if entries == [] then 0
    else
      var rest, last := Largest(entries[..|entries| - 1], disk, c), entries[|entries| - 1];
      if last.disk == disk then Max(rest, last.stat.Get(c)) else rest
  }

  ghost function Disks(entries: seq<Entry>): (names: set<string>) {
    set e | e in entries :: e.disk
  }

  function LargestOf(entries: seq<Entry>, c: Counter): string -> int {
    disk => Largest(entries, disk, c)
  }

  /** Over the distinct disks, the sum of the largest values. */
  ghost function Exact(entries: seq<Entry>, c: Counter): (n: int) {
    SumOver(Disks(entries), LargestOf(entries, c))
  }

  function Wrap(n: int): (r: nat) {
    n % WRAP
  }

  /** The total of a counter: the exact sum modulo 2^64. */
  ghost function Total(entries: seq<Entry>, c: Counter): (n: nat) {
    Wrap(Exact(entries, c))
  }

  /** `byDevice` after the first loop: the largest of every counter for exactly the disks present. */
  ghost predicate Grouped(byDevice: map<string, Totals>, entries: seq<Entry>) {
    && byDevice.Keys == Disks(entries)
    && forall disk, c :: disk in byDevice ==> byDevice[disk].Get(c) == Largest(entries, disk, c)
  }

  function Raise(t: Totals, stat: DiskStat): (r: Totals)
    ensures forall c :: r.Get(c) == Max(t.Get(c), stat.Get(c))
  {
    Totals(Max(t.readBytes, stat.readBytes), Max(t.writeBytes, stat.writeBytes),
           Max(t.readOps, stat.readOps), Max(t.writeOps, stat.writeOps))
  }

  lemma {:induction false} NoneIsZero(entries: seq<Entry>, disk: string, c: Counter)
    requires disk !in Disks(entries)
    ensures Largest(entries, disk, c) == 0
  {
    if entries != [] {
      var shorter := entries[..|entries| - 1];
      assert forall e :: e in shorter ==> e in entries;
      assert entries[|entries| - 1] in entries;
      NoneIsZero(shorter, disk, c);
    }
  }

  lemma GroupedNext(byDevice: map<string, Totals>, entries: seq<Entry>, e: Entry)
    requires Grouped(byDevice, entries)
    ensures var current := if e.disk in byDevice then byDevice[e.disk] else Totals(0, 0, 0, 0);
      Grouped(byDevice[e.disk := Raise(current, e.stat)], entries + [e])
  {
    assert (entries + [e])[..|entries|] == entries;
    assert Disks(entries + [e]) == Disks(entries) + {e.disk};
    var current := if e.disk in byDevice then byDevice[e.disk] else Totals(0, 0, 0, 0);
    var raised := Raise(current, e.stat);
    forall c ensures raised.Get(c) == Largest(entries + [e], e.disk, c) {
      if e.disk !in byDevice { NoneIsZero(entries, e.disk, c); }
      assert current.Get(c) == Largest(entries, e.disk, c);
    }
  }

  lemma EntriesNext(stats: Stats, linux: bool, i: nat)
    requires i < |stats|
    ensures var e := EntryOf(stats[i], linux);
      Entries(stats[..i + 1], linux) == if e.Some? then Entries(stats[..i], linux) + [e.value] else Entries(stats[..i], linux)
  {
    assert stats[..i + 1][..i] == stats[..i];
  }

  method GroupByDevice(stats: Stats, linux: bool) returns (byDevice: map<string, Totals>)
    ensures Grouped(byDevice, Entries(stats, linux))
  {
    byDevice := map[];
    for i := 0 to |stats|
      invariant Grouped(byDevice, Entries(stats[..i], linux))
    {
      EntriesNext(stats, linux, i);
      if stats[i].Some? {
        var name := NormalizeDiskName(stats[i].value.device, linux);
        if !SkipDiskCounter(name) {
          GroupedNext(byDevice, Entries(stats[..i], linux), Entry(name, stats[i].value));
          var current := if name in byDevice then byDevice[name] else Totals(0, 0, 0, 0);
          byDevice := byDevice[name := Raise(current, stats[i].value)];
        }
      }
    }
    assert stats[..|stats|] == stats;
  }

  /** The exact total of the disks that are not in `rest` any more. */
  ghost function Done(entries: seq<Entry>, rest: set<string>, c: Counter): int {
    Exact(entries, c) - SumOver(rest, LargestOf(entries, c))
  }

  function Multiple(k: int): int {
    k * WRAP
  }

  ghost predicate Congruent(n: int, m: int) {
    exists k :: m == n + Multiple(k)
  }

  ghost predicate Added(n: int, entries: seq<Entry>, rest: set<string>, c: Counter) {
    Wrapped(n, Done(entries, rest, c))
  }

  /** `n` is `m` as an unsigned 64-bit number. */
  ghost predicate Wrapped(n: int, m: int) {
    0 <= n < WRAP && Congruent(n, m)
  }

  /** The additions of one group, each wrapping around. */
  method AddWrapping(t: Totals, u: Totals) returns (r: Totals)
    ensures forall c :: Wrapped(r.Get(c), t.Get(c) + u.Get(c))
  {
    WrapIsCongruent(t.readBytes + u.readBytes);
    WrapIsCongruent(t.writeBytes + u.writeBytes);
    WrapIsCongruent(t.readOps + u.readOps);
    WrapIsCongruent(t.writeOps + u.writeOps);
    r := Totals(Wrap(t.readBytes + u.readBytes), Wrap(t.writeBytes + u.writeBytes),
                Wrap(t.readOps + u.readOps), Wrap(t.writeOps + u.writeOps));
  }

  lemma DoneNext(entries: seq<Entry>, rest: set<string>, disk: string, c: Counter)
    requires disk in rest
    ensures Done(entries, rest - {disk}, c) == Done(entries, rest, c) + Largest(entries, disk, c)
  {
    SumRemove(rest, disk, LargestOf(entries, c));
  }

  lemma WrapIsCongruent(n: int)
    ensures Wrapped(Wrap(n), n)
  {
    assert n == Wrap(n) + Multiple(n / WRAP);
  }

  lemma CongruentSum(a: int, b: int, c: int, more: int)
    requires Congruent(a, b + more) && Congruent(b, c)
    ensures Congruent(a, c + more)
  {
    var j :| b + more == a + Multiple(j);
    var k :| c == b + Multiple(k);
    assert c + more == a + Multiple(j + k);
  }

  lemma CongruentIsWrap(n: int, m: int)
    requires Wrapped(n, m)
    ensures n == Wrap(m)
  {
    var k :| m == n + Multiple(k);
    assert m == Wrap(m) + Multiple(m / WRAP);
    assert n - Wrap(m) == (m / WRAP - k) * WRAP;
  }

  lemma AddedNext(n: int, group: int, next: int, entries: seq<Entry>, rest: set<string>, disk: string, c: Counter)
    requires disk in rest && Added(n, entries, rest, c) && group == Largest(entries, disk, c) && Wrapped(next, n + group)
    ensures Added(next, entries, rest - {disk}, c)
  {
    DoneNext(entries, rest, disk, c);
    CongruentSum(next, n, Done(entries, rest, c), group);
  }

  ghost predicate AllAdded(sum: Totals, entries: seq<Entry>, rest: set<string>) {
    forall c :: Added(sum.Get(c), entries, rest, c)
  }

  lemma NoneAdded(entries: seq<Entry>)
    ensures AllAdded(Totals(0, 0, 0, 0), entries, Disks(entries))
  {
    forall c ensures Added(Totals(0, 0, 0, 0).Get(c), entries, Disks(entries), c) {
      assert Done(entries, Disks(entries), c) == 0 + Multiple(0);
    }
  }

  lemma GroupAdded(sum: Totals, group: Totals, next: Totals, entries: seq<Entry>, rest: set<string>, disk: string)
    requires disk in rest && AllAdded(sum, entries, rest) && forall c :: group.Get(c) == Largest(entries, disk, c)
    requires forall c :: Wrapped(next.Get(c), sum.Get(c) + group.Get(c))
    ensures AllAdded(next, entries, rest - {disk})
  {
    forall c ensures Added(next.Get(c), entries, rest - {disk}, c) {
      AddedNext(sum.Get(c), group.Get(c), next.Get(c), entries, rest, disk, c);
    }
  }

  lemma AllDone(sum: Totals, entries: seq<Entry>)
    requires AllAdded(sum, entries, {})
    ensures forall c :: sum.Get(c) == Total(entries, c)
  {
    forall c ensures sum.Get(c) == Total(entries, c) {
      assert Added(sum.Get(c), entries, {}, c);
      CongruentIsWrap(sum.Get(c), Exact(entries, c));
    }
  }

  /** `sumStructuredDiskCounters`: the second loop adds the groups in whatever order the map is ranged over. */
  method SumDiskCounters(stats: Stats, linux: bool) returns (sum: Totals)
    ensures forall c :: sum.Get(c) == Total(Entries(stats, linux), c)
  {
    var byDevice := GroupByDevice(stats, linux);
    ghost var entries := Entries(stats, linux);
    sum := Totals(0, 0, 0, 0);
    var rest := byDevice.Keys;
    NoneAdded(entries);
    while rest != {}
      invariant rest <= byDevice.Keys
      invariant AllAdded(sum, entries, rest)
      decreases rest
    {
      var disk :| disk in rest;
      var next := AddWrapping(sum, byDevice[disk]);
      GroupAdded(sum, byDevice[disk], next, entries, rest, disk);
      sum := next;
      rest := rest - {disk};
    }
    AllDone(sum, entries);
  }

  // ---- What the totals do not depend on ----

  /** The largest value is attained, or there is no entry; and no entry exceeds it. */
  lemma {:induction false} LargestIsMaximum(entries: seq<Entry>, disk: string, c: Counter)
    ensures forall e :: e in entries && e.disk == disk ==> e.stat.Get(c) <= Largest(entries, disk, c)
    ensures Largest(entries, disk, c) == 0
         || exists e :: e in entries && e.disk == disk && e.stat.Get(c) == Largest(entries, disk, c)
  {
    if entries != [] {
      var shorter, last := entries[..|entries| - 1], entries[|entries| - 1];
      LargestIsMaximum(shorter, disk, c);
      assert entries == shorter + [last];
    }
  }

  lemma LargestOfSameEntries(a: seq<Entry>, b: seq<Entry>, disk: string, c: Counter)
    requires forall e :: e in a <==> e in b
    ensures Largest(a, disk, c) == Largest(b, disk, c)
  {
    LargestIsMaximum(a, disk, c);
    LargestIsMaximum(b, disk, c);
  }

  lemma SameEntriesSameTotal(a: seq<Entry>, b: seq<Entry>, c: Counter)
    requires forall e :: e in a <==> e in b
    ensures Total(a, c) == Total(b, c)
  {
    var f, g := LargestOf(a, c), LargestOf(b, c);
    assert Disks(a) == Disks(b);
    forall disk | disk in Disks(a) ensures f(disk) == g(disk) {
      LargestOfSameEntries(a, b, disk, c);
    }
    SumSame(Disks(a), f, g);
  }

  ghost predicate ComesFrom(e: Entry, stats: Stats, linux: bool) {
    exists stat :: stat in stats && EntryOf(stat, linux) == Some(e)
  }

  lemma ComesFromNext(e: Entry, stats: Stats, last: Option<DiskStat>, linux: bool)
    ensures ComesFrom(e, stats + [last], linux) <==> ComesFrom(e, stats, linux) || EntryOf(last, linux) == Some(e)
  {
    if ComesFrom(e, stats, linux) {
      var stat :| stat in stats && EntryOf(stat, linux) == Some(e);
      assert stat in stats + [last];
    }
    if EntryOf(last, linux) == Some(e) { assert last in stats + [last]; }
  }

  /** Whether an entry is there depends only on which list elements there are. */
  lemma {:induction false} EntriesExactly(stats: Stats, linux: bool, e: Entry)
    ensures e in Entries(stats, linux) <==> ComesFrom(e, stats, linux)
  {
    if stats != [] {
      var n := |stats| - 1;
      EntriesExactly(stats[..n], linux, e);
      assert stats == stats[..n] + [stats[n]];
      ComesFromNext(e, stats[..n], stats[n], linux);
    }
  }

  /** The totals depend on which counters are listed, not on their order or repetition. */
  lemma TotalsIgnoreOrder(a: Stats, b: Stats, linux: bool, c: Counter)
    requires forall s :: s in a <==> s in b
    ensures Total(Entries(a, linux), c) == Total(Entries(b, linux), c)
  {
    forall e ensures e in Entries(a, linux) <==> e in Entries(b, linux) {
      EntriesExactly(a, linux, e);
      EntriesExactly(b, linux, e);
      assert ComesFrom(e, a, linux) <==> ComesFrom(e, b, linux);
    }
    SameEntriesSameTotal(Entries(a, linux), Entries(b, linux), c);
  }

  lemma CoveredEntryAddsNothing(entries: seq<Entry>, partition: Entry, c: Counter)
    requires partition.disk in Disks(entries) && partition.stat.Get(c) <= Largest(entries, partition.disk, c)
    ensures Total(entries + [partition], c) == Total(entries, c)
  {
    var longer := entries + [partition];
    assert longer[..|entries|] == entries;
    assert Disks(longer) == Disks(entries);
    SumSame(Disks(entries), LargestOf(longer, c), LargestOf(entries, c));
  }

  /** A partition whose counter does not exceed what is already counted for its disk adds nothing. */
  lemma PartitionAddsNothing(stats: Stats, partition: DiskStat, linux: bool, c: Counter)
    requires var disk := NormalizeDiskName(partition.device, linux);
      && disk in Disks(Entries(stats, linux))
      && partition.Get(c) <= Largest(Entries(stats, linux), disk, c)
    ensures Total(Entries(stats + [Some(partition)], linux), c) == Total(Entries(stats, linux), c)
  {
    var disk, entries := NormalizeDiskName(partition.device, linux), Entries(stats, linux);
    assert (stats + [Some(partition)])[..|stats|] == stats;
    var e :| e in entries && e.disk == disk;
    EntriesExactly(stats, linux, e);
    CoveredEntryAddsNothing(entries, Entry(disk, partition), c);
  }

  /** On Linux, listing the partition /dev/sda1 beside its disk /dev/sda adds nothing, unless it counts more than the disk. */
  lemma PartitionBesideItsDisk(stats: Stats, disk: DiskStat, partition: DiskStat, name: string, part: string, c: Counter)
    requires PartitionOf(part, name) && PlainName(part)
    requires disk.device == "/dev/" + name && partition.device == "/dev/" + part
    requires Some(disk) in stats && partition.Get(c) <= disk.Get(c)
    ensures Total(Entries(stats + [Some(partition)], true), c) == Total(Entries(stats, true), c)
  {
    var entries := Entries(stats, true);
    PlainDisk(part, name);
    NormalizedDevice(name);
    NormalizedDevice(part);
    PartitionBelongsToDisk(part, name);
    var e := Entry(name, disk);
    assert EntryOf(Some(disk), true) == Some(e);
    EntriesExactly(stats, true, e);
    LargestIsMaximum(entries, name, c);
    PartitionAddsNothing(stats, partition, true, c);
  }

  /** A disk not listed so far adds its own counter, and nothing else changes. */
  lemma DisksAreAdded(entries: seq<Entry>, e: Entry, c: Counter)
    requires e.disk !in Disks(entries)
    ensures Exact(entries + [e], c) == Exact(entries, c) + e.stat.Get(c)
  {
    var longer := entries + [e];
    var f, g := LargestOf(longer, c), LargestOf(entries, c);
    assert longer[..|entries|] == entries;
    assert Disks(longer) == Disks(entries) + {e.disk} && Disks(longer) - {e.disk} == Disks(entries);
    NoneIsZero(entries, e.disk, c);
    SumRemove(Disks(longer), e.disk, f);
    SumSame(Disks(entries), f, g);
  }
}
