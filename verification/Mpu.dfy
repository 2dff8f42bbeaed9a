/** The memory protection unit's region table: the size and attribute encoder, the registers of
    the ARMv7-M Architecture Reference Manual, section B3.5, and the flags kept beside them. */
module Mpu {
  import opened Bits
  import opened Options
  import opened Words

  const REGIONS := 8   // MPU_MAX_REGION_NUM

  /** A power of two has no odd factor but one. */
  lemma {:induction false} OddFactor(k: nat, odd: nat, c: nat)
    requires odd % 2 == 1 && Pow2(k) == odd * Pow2(c)
    ensures odd == 1
  {
    if c > 0 {
      assert odd * Pow2(c) == 2 * (odd * Pow2(c - 1));
      OddFactor(k - 1, odd, c - 1);
    }
  }

  // ---------- The size ----------

  predicate RegionSize(size: nat) {
    exists k: nat :: 5 <= k <= 32 && size == Pow2(k)
  }

  /** `HalMpuEncodeSize` */
  method EncodeSize(size: nat) returns (code: nat)
    requires size < TWO_64
    ensures code != 0 <==> RegionSize(size)
    ensures code != 0 ==> 4 <= code <= 31 && size == Pow2(code + 1)
  {
    hide Pow2, And, RegionSize;
    AndMask(size, 5);
    Pow2Values();
    if size == 0 || size > TWO_32 || size % 32 != 0 {
      NotSizes(size);
    }
    if size > 0x1_0000_0000 {
      return 0;
    }
    if And(size, 0x1F) != 0 {
      return 0;
    }
    var rest := size / 4;
    code := 0;
    while rest != 0
      invariant rest != 0 ==> size == 4 * (rest * Pow2(code))
      invariant rest == 0 ==> (size == 0 && code == 0) || (code >= 1 && size == Pow2(code + 1))
      invariant rest <= 0x4000_0000
      decreases rest
    {
      LowBits(rest);
      if And(rest, 1) != 0 && And(rest, 0xFFFF_FFFE) != 0 {
        NotRegionSize(size, rest, code);
        return 0;
      }
      Halve(rest, code);
      rest := rest / 2;
      code := code + 1;
    }
    if code != 0 {
      SizeInRange(size, code + 1);
      IsRegionSize(code + 1);
    }
  }

  lemma NotSizes(size: nat)
    requires size == 0 || size > TWO_32 || size % 32 != 0
    ensures !RegionSize(size)
  {
    hide Pow2;
    Pow2Values();
    forall k: nat | 5 <= k <= 32 ensures size != Pow2(k) {
      Pow2Grows(k, 32);
      Multiple32(k);
    }
  }

  lemma IsRegionSize(k: nat)
    requires 5 <= k <= 32
    ensures RegionSize(Pow2(k))
  {
  }

  lemma Multiple32(k: nat)
    requires k >= 5
    ensures Pow2(k) % 32 == 0
  {
    hide Pow2;
    Pow2Splits(k - 5, 5);
    Pow2Values();
    UniqueResidue(Pow2(k), Pow2(k - 5), 32, 0);
  }

  lemma LowBits(rest: nat)
    requires rest <= 0x4000_0000
    ensures And(rest, 1) == rest % 2
    ensures And(rest, 0xFFFF_FFFE) == rest - rest % 2
  {
    hide And, Pow2;
    Pow2Values();
    AndMask(rest, 1);
    AndMask(rest / 2, 31);
    AndDouble(rest, 0x7FFF_FFFF);
  }

  lemma NotRegionSize(size: nat, rest: nat, code: nat)
    requires size == 4 * (rest * Pow2(code)) && rest % 2 == 1 && rest > 1
    ensures !RegionSize(size)
  {
    hide Pow2;
    forall k: nat ensures size != Pow2(k) {
      if size == Pow2(k) {
        Pow2Step(code);
        assert 4 * (rest * Pow2(code)) == rest * (4 * Pow2(code));
        OddFactor(k, rest, code + 2);
      }
    }
  }

  lemma Halve(rest: nat, code: nat)
    requires rest > 0 && (rest % 2 == 0 || rest == 1)
    ensures rest > 1 ==> rest * Pow2(code) == rest / 2 * Pow2(code + 1)
    ensures rest == 1 ==> 4 * (rest * Pow2(code)) == Pow2(code + 2)
  {
    if rest > 1 {
      var h := rest / 2;
      assert rest == 2 * h;
      assert 2 * h * Pow2(code) == h * (2 * Pow2(code));
    }
  }

  lemma SizeInRange(size: nat, k: nat)
    requires size == Pow2(k) && size <= TWO_32 && size % 32 == 0
    ensures 5 <= k <= 32
  {
    hide Pow2;
    Pow2Values();
    if k > 32 {
      Pow2Grows(32, k);
    }
    Pow2Grows(if k < 5 then k else 5, 5);
  }

  // ---------- The attributes ----------

  datatype Permission = RwByPrivilegedOnly | RwAny | RoByPrivilegedOnly | RoAny | OtherPermission
  datatype MemType = OnChipRom | OnChipRam | XipPsram | XipNorFlash | OtherMemory

  /** `MPU_CFG_PARA`: the enumerations the code shifts into place are words, of which any bit may be set. */
  datatype Para = Para(baseAddr: nat, size: nat, permission: Permission, executable: bv32, shareability: bv32,
                       memType: MemType)

  datatype Access = NoAccess | ReadOnly | ReadWrite | Unpredictable

  /** A region as the hardware enforces it. */
  datatype Region = Region(base: nat, size: nat, privileged: Access, user: Access,
                           executeNever: bool, shared: bool, cacheable: bool, bufferable: bool)

  const ENABLE: bv32 := 0x1
  const BUFFERABLE: bv32 := 0x1_0000
  const CACHEABLE: bv32 := 0x2_0000
  const SHAREABLE: bv32 := 0x4_0000
  const EXECUTE_NEVER: bv32 := 0x1000_0000

  predicate Has(word: bv32, mask: bv32) {
    word & mask != 0
  }

  /** The access permissions the AP field grants to privileged code. */
  function PrivilegedAccess(ap: bv32): Access {
    if ap == 0 then NoAccess else if ap <= 3 then ReadWrite else if ap == 4 then Unpredictable else ReadOnly
  }

  function UserAccess(ap: bv32): Access {
    if ap == 3 then ReadWrite
    else if ap == 4 then Unpredictable
    else if ap == 2 || ap >= 6 then ReadOnly
    else NoAccess
  }

  function SizeField(rasr: bv32): (n: nat)
    ensures n < 32
  {
    ((rasr >> 1) & 31) as nat
  }

  function ApField(rasr: bv32): bv32 {
    (rasr >> 24) & 7
  }

  function Floor(x: nat, m: nat): nat
    requires m >= 1
  {
    x - x % m
  }

  /** What the hardware makes of a region's two registers (section B3.5.9). */
  function Decode(rbar: nat, rasr: bv32): Option<Region> {
    if !Has(rasr, ENABLE) then None
    else
      var size := Pow2(SizeField(rasr) + 1);
      Some(Region(Floor(rbar, size), size, PrivilegedAccess(ApField(rasr)), UserAccess(ApField(rasr)),
                  Has(rasr, EXECUTE_NEVER), Has(rasr, SHAREABLE), Has(rasr, CACHEABLE), Has(rasr, BUFFERABLE)))
  }

  /** The region that a caller asks for. */
  function Requested(p: Para): Region {
    Region(p.baseAddr, p.size,
           if p.permission.RoByPrivilegedOnly? || p.permission.RoAny? then ReadOnly else ReadWrite,
           match p.permission
           case RwByPrivilegedOnly => NoAccess
           case RoByPrivilegedOnly => NoAccess
           case RoAny => ReadOnly
           case _ => ReadWrite,
           Has(p.executable, 1), Has(p.shareability, 1),
           p.memType.OnChipRom? || p.memType.OnChipRam? || p.memType.XipPsram?,
           p.memType.XipPsram? || p.memType.XipNorFlash?)
  }

  /** `HalMpuEncodeAP` */
  method EncodeAp(permission: Permission) returns (ap: bv32)
    ensures ap < 8
    ensures ap == match permission
                  case RwByPrivilegedOnly => 1
                  case RwAny => 3
                  case RoByPrivilegedOnly => 5
                  case RoAny => 6
                  case OtherPermission => 3
    ensures forall p: Para :: p.permission == permission ==>
              PrivilegedAccess(ap) == Requested(p).privileged && UserAccess(ap) == Requested(p).user
  {
    match permission
    case RwByPrivilegedOnly => ap := 0x1;
    case RwAny => ap := 0x3;
    case RoByPrivilegedOnly => ap := 0x5;
    case RoAny => ap := 0x6;
    case OtherPermission => ap := 0x3;
  }

  /** The flags of `HalMpuRASRAddMemAttr` in their places. */
  function WithMemAttr(word: bv32, cachable: bool, buffable: bool): bv32 {
    word | (((if cachable then 1 else 0) << 17) | ((if buffable then 1 else 0) << 16))
  }

  /** `HalMpuRASRAddMemAttr`, with the register's new value as its result. */
  method AddMemAttr(p: Para, word: bv32) returns (rasr: bv32)
    ensures rasr == WithMemAttr(word, Requested(p).cacheable, Requested(p).bufferable)
  {
    hide WithMemAttr;
    var cachable, buffable := false, false;
    match p.memType {
      case OnChipRom => cachable, buffable := true, false;
      case OnChipRam => cachable, buffable := true, false;
      case XipPsram => cachable, buffable := true, true;
      case XipNorFlash => cachable, buffable := false, true;
      case OtherMemory =>
    }
    rasr := WithMemAttr(word, cachable, buffable);
  }

  function Word(code: bv32, ap: bv32, xn: bv32, s: bv32): bv32 {
    (1 | ((code << 1) & 0x3E))
    | ((ap << 24) & 0x700_0000) | ((xn << 28) & 0x1000_0000) | ((s << 18) & 0x4_0000)
  }

  /** Every field can be read back from the packed word. */
  lemma Packed(code: bv32, ap: bv32, xn: bv32, s: bv32, cachable: bool, buffable: bool)
    requires code < 32 && ap < 8
    ensures var rasr := WithMemAttr(Word(code, ap, xn, s), cachable, buffable);
            && Has(rasr, ENABLE) && SizeField(rasr) == code as nat && ApField(rasr) == ap
            && Has(rasr, EXECUTE_NEVER) == Has(xn, 1) && Has(rasr, SHAREABLE) == Has(s, 1)
            && Has(rasr, CACHEABLE) == cachable && Has(rasr, BUFFERABLE) == buffable
  {
  }

  lemma SameSize(code: nat)
    requires code < 32
    ensures code as bv32 < 32 && (code as bv32) as nat == code
  {
  }

  /** `HalMpuGetRASR`: the hardware reads back from it exactly what was asked for. */
  method GetRasr(code: nat, p: Para) returns (rasr: bv32)
    requires code < 32
    ensures SizeField(rasr) == code
    ensures forall rbar: nat :: Decode(rbar, rasr) ==
              Some(Requested(p).(base := Floor(rbar, Pow2(code + 1)), size := Pow2(code + 1)))
    ensures rasr & 1 == 1 && ((rasr >> 1) & 31) as nat == code
    ensures (rasr >> 24) & 7 == match p.permission
                                case RwByPrivilegedOnly => 1
                                case RwAny => 3
                                case RoByPrivilegedOnly => 5
                                case RoAny => 6
                                case OtherPermission => 3
    ensures (rasr >> 28) & 1 == p.executable & 1 && (rasr >> 18) & 1 == p.shareability & 1
    ensures (rasr >> 17) & 1 == 1 <==> p.memType in {OnChipRom, OnChipRam, XipPsram}
    ensures (rasr >> 16) & 1 == 1 <==> p.memType in {XipPsram, XipNorFlash}
  {
    hide WithMemAttr, Word, Has, PrivilegedAccess, UserAccess, ApField, SizeField, Pow2, Floor;
    var ap := EncodeAp(p.permission);
    var size := code as bv32;
    SameSize(code);
    rasr := AddMemAttr(p, Word(size, ap, p.executable, p.shareability));
    Packed(size, ap, p.executable, p.shareability, Requested(p).cacheable, Requested(p).bufferable);
    Flags(rasr);
    Flags(p.executable);
    Flags(p.shareability);
    Fields(rasr);
  }

  /** The flags are single bits. */
  lemma Flags(w: bv32)
    ensures w & 1 == (if Has(w, ENABLE) then 1 else 0) && (w >> 28) & 1 == (if Has(w, EXECUTE_NEVER) then 1 else 0)
    ensures (w >> 18) & 1 == (if Has(w, SHAREABLE) then 1 else 0)
    ensures (w >> 17) & 1 == (if Has(w, CACHEABLE) then 1 else 0)
    ensures (w >> 16) & 1 == (if Has(w, BUFFERABLE) then 1 else 0)
    ensures Has(w, 1) == Has(w, ENABLE)
  {
  }

  lemma Fields(w: bv32)
    ensures ((w >> 1) & 31) as nat == SizeField(w) && (w >> 24) & 7 == ApField(w)
  {
  }

  /** What a region that was asked for grants, and how memory behind it is treated. */
  lemma RequestedMeans(p: Para)
    ensures var r := Requested(p);
            && r.base == p.baseAddr && r.size == p.size
            && r.privileged == (if p.permission in {RoByPrivilegedOnly, RoAny} then ReadOnly else ReadWrite)
            && r.user == (if p.permission in {RwByPrivilegedOnly, RoByPrivilegedOnly} then NoAccess else r.privileged)
            && (r.cacheable <==> p.memType in {OnChipRom, OnChipRam, XipPsram})
            && (r.bufferable <==> p.memType in {XipPsram, XipNorFlash})
            && (r.executeNever <==> p.executable & 1 == 1) && (r.shared <==> p.shareability & 1 == 1)
  {
    Flags(p.executable);
    Flags(p.shareability);
  }

  // ---------- The region table ----------

  type Table = t: seq<Option<Region>> | |t| == REGIONS witness seq(REGIONS, i => None)

  datatype Op = Set(id: nat, para: Option<Para>) | Disable(id: nat) | Unused

  /** When a region can be set: the parameters are given, the protection unit exists, the size can
      be encoded, the base is a multiple of it, and the region is free. */
  predicate Settable(t: Table, present: bool, id: nat, para: Option<Para>) {
    && id < REGIONS && para.Some? && present
    && RegionSize(para.value.size) && para.value.baseAddr % para.value.size == 0
    && t[id].None?
  }

  function Apply(t: Table, present: bool, op: Op): Table {
    match op
    case Set(id, para) => if Settable(t, present, id, para) then t[id := Some(Requested(para.value))] else t
    case Disable(id) => if id < REGIONS then t[id := None] else t
    case Unused => t
  }

  predicate LeastFree(t: Table, id: int) {
    if id == -1 then forall i :: 0 <= i < REGIONS ==> t[i].Some?
    else 0 <= id < REGIONS && t[id].None? && forall i :: 0 <= i < id ==> t[i].Some?
  }

  /** What an operation answers: -1 for LOS_NOK, 0 for LOS_OK, or the number of a free region. */
  predicate Replies(t: Table, present: bool, op: Op, reply: int) {
    match op
    case Set(id, para) => reply == if Settable(t, present, id, para) then 0 else -1
    case Disable(id) => reply == if id < REGIONS && t[id].Some? then 0 else -1
    case Unused => LeastFree(t, reply)
  }

  predicate WordSized(op: Op) {
    op.Set? && op.para.Some? ==> op.para.value.baseAddr < TWO_32 && op.para.value.size < TWO_64
  }

  class Unit {
    const present: bool          // the TYPE register's DREGION field is not zero
    var rnr: nat
    var rbar: seq<nat>
    var rasr: seq<bv32>
    const beUsed: array<bool>    // g_regionNumBeUsed

    predicate Wired()
      reads this
    {
      |rbar| == REGIONS && |rasr| == REGIONS && rnr < REGIONS && beUsed.Length == REGIONS
    }

    /** The regions as the hardware reads them from its registers. */
    function Regions(): Table
      requires Wired()
      reads this
    {
      seq(REGIONS, i requires 0 <= i < REGIONS reads this requires Wired() => Decode(rbar[i], rasr[i]))
    }

    /** A region is flagged as used if and only if it is enabled. */
    predicate Valid()
      reads this, beUsed
    {
      && Wired()
      && (forall i :: 0 <= i < REGIONS ==> beUsed[i] == Regions()[i].Some?)
      && (!present ==> forall i :: 0 <= i < REGIONS ==> Regions()[i].None?)
    }

    constructor (present: bool)
      ensures Valid() && this.present == present && fresh(beUsed)
      ensures forall i :: 0 <= i < REGIONS ==> Regions()[i].None?
    {
      this.present := present;
      rnr, rbar, rasr := 0, seq(REGIONS, _ => 0), seq(REGIONS, _ => 0);
      beUsed := new bool[REGIONS](_ => false);
    }

    /** RBAR and RASR are those of the region that RNR names. */
    method WriteRegion(id: nat, base: nat, attributes: bv32)
      requires Wired() && id < REGIONS
      modifies `rnr, `rbar, `rasr
      ensures Wired()
      ensures Regions() == old(Regions())[id := Decode(base, attributes)]
    {
      rnr := id;
      rbar := rbar[rnr := base];
      rasr := rasr[rnr := attributes];
    }

    method WriteAttributes(id: nat, attributes: bv32)
      requires Wired() && id < REGIONS
      modifies `rnr, `rasr
      ensures Wired()
      ensures Regions() == old(Regions())[id := Decode(old(rbar)[id], attributes)]
    {
      rnr := id;
      rasr := rasr[rnr := attributes];
    }

    /** `ArchMpuSetRegion` */
    method SetRegion(id: nat, para: Option<Para>) returns (reply: int)
      requires Valid() && WordSized(Set(id, para))
      modifies this, beUsed
      ensures Valid()
      ensures Regions() == Apply(old(Regions()), present, Set(id, para))
      ensures Replies(old(Regions()), present, Set(id, para), reply)
      ensures reply == 0 <==>
        && id < 8 && para.Some? && present && !old(beUsed[id])
        && (exists k: nat :: 5 <= k <= 32 && para.value.size == Pow2(k))
        && para.value.baseAddr % para.value.size == 0
      ensures reply != 0 ==> reply == -1 && Regions() == old(Regions())
      ensures forall i :: 0 <= i < 8 && (reply != 0 || i != id) ==> beUsed[i] == old(beUsed[i])
      ensures reply == 0 ==>
        && beUsed[id] && Regions()[id].Some?
        && var r, p := Regions()[id].value, para.value;
           && r.base == p.baseAddr && r.size == p.size
           && r.privileged == (if p.permission in {RoByPrivilegedOnly, RoAny} then ReadOnly else ReadWrite)
           && r.user == (if p.permission in {RwByPrivilegedOnly, RoByPrivilegedOnly} then NoAccess else r.privileged)
           && (r.cacheable <==> p.memType in {OnChipRom, OnChipRam, XipPsram})
           && (r.bufferable <==> p.memType in {XipPsram, XipNorFlash})
           && (r.executeNever <==> p.executable & 1 == 1) && (r.shared <==> p.shareability & 1 == 1)
    {
      if id >= REGIONS || para == None {
        return -1;
      }
      if !present {
        return -1;
      }
      var p := para.value;
      var code := EncodeSize(p.size);
      if code == 0 {
        return -1;
      }
      AlignedBase(p, code);
      if And(p.baseAddr, p.size - 1) != 0 {
        return -1;
      }
      var base := And(p.baseAddr, 0xFFFF_FFE0);
      var attributes := GetRasr(code, p);
      if beUsed[id] {
        return -1;
      }
      RequestedMeans(p);
      WriteRegion(id, base, attributes);
      beUsed[id] := true;
      reply := 0;
    }

    /** `ArchMpuDisableRegion` */
    method DisableRegion(id: nat) returns (reply: int)
      requires Valid()
      modifies this, beUsed
      ensures Valid()
      ensures Regions() == Apply(old(Regions()), present, Disable(id))
      ensures Replies(old(Regions()), present, Disable(id), reply)
      ensures reply == if id < 8 && old(beUsed[id]) then 0 else -1
      ensures id < 8 ==> Regions()[id].None? && !beUsed[id]
      ensures forall i :: 0 <= i < 8 && i != id ==> beUsed[i] == old(beUsed[i])
    {
      if id >= REGIONS {
        return -1;
      }
      if !beUsed[id] {
        return -1;
      }
      if present {
        WriteAttributes(id, 0);
      }
      beUsed[id] := false;
      reply := 0;
    }

    /** `ArchMpuUnusedRegionGet` */
    method UnusedRegionGet() returns (reply: int)
      requires Valid()
      ensures LeastFree(Regions(), reply)
      ensures reply == -1 || 0 <= reply < 8
      ensures reply == -1 ==> forall i :: 0 <= i < 8 ==> beUsed[i]
      ensures reply >= 0 ==> !beUsed[reply] && forall i :: 0 <= i < reply ==> beUsed[i]
    {
      var id := 0;
      while id < REGIONS
        invariant 0 <= id <= REGIONS
        invariant forall i :: 0 <= i < id ==> beUsed[i]
      {
        if !beUsed[id] {
          break;
        }
        id := id + 1;
      }
      reply := if id == REGIONS then -1 else id;
    }
  }

  /** Any list of calls: the registers follow the table, and every answer is the specified one. */
  method Run(u: Unit, ops: seq<Op>) returns (replies: seq<int>)
    requires u.Valid() && forall op :: op in ops ==> WordSized(op)
    modifies u, u.beUsed
    ensures u.Valid() && u.Regions() == ApplyAll(old(u.Regions()), u.present, ops)
    ensures |replies| == |ops|
    ensures forall i :: 0 <= i < |ops| ==>
              Replies(ApplyAll(old(u.Regions()), u.present, ops[..i]), u.present, ops[i], replies[i])
  {
    hide Apply, ApplyAll, Replies, WordSized, LeastFree, Unit.Regions, Unit.Wired;
    ApplyNone(u.Regions(), u.present, ops);
    replies := [];
    ghost var start := u.Regions();
    for n := 0 to |ops|
      invariant u.Valid() && |replies| == n
      invariant u.Regions() == ApplyAll(start, u.present, ops[..n])
      invariant forall i :: 0 <= i < n ==>
                  Replies(ApplyAll(start, u.present, ops[..i]), u.present, ops[i], replies[i])
    {
      assert ops[n] in ops;
      var reply := Perform(u, ops[n]);
      replies := replies + [reply];
      ApplyOne(start, u.present, ops, n);
    }
    assert ops[..|ops|] == ops;
  }

  method Perform(u: Unit, op: Op) returns (reply: int)
    requires u.Valid() && WordSized(op)
    modifies u, u.beUsed
    ensures u.Valid() && u.Regions() == Apply(old(u.Regions()), u.present, op)
    ensures Replies(old(u.Regions()), u.present, op, reply)
  {
    match op
    case Set(id, para) => reply := u.SetRegion(id, para);
    case Disable(id) => reply := u.DisableRegion(id);
    case Unused => reply := u.UnusedRegionGet();
  }

  // ---------- What the table means ----------

  function ApplyAll(t: Table, present: bool, ops: seq<Op>): Table {
    if ops == [] then t else Apply(ApplyAll(t, present, ops[..|ops| - 1]), present, ops[|ops| - 1])
  }

  lemma ApplyNone(t: Table, present: bool, ops: seq<Op>)
    ensures ApplyAll(t, present, ops[..0]) == t
  {
  }

  lemma ApplyOne(t: Table, present: bool, ops: seq<Op>, n: nat)
    requires n < |ops|
    ensures ApplyAll(t, present, ops[..n + 1]) == Apply(ApplyAll(t, present, ops[..n]), present, ops[n])
  {
    assert ops[..n + 1][..n] == ops[..n];
  }

  /** Over any calls but its own disabling, a region in use never changes. */
  lemma {:induction false} RegionKept(t: Table, present: bool, ops: seq<Op>, i: nat)
    requires i < REGIONS && t[i].Some? && Disable(i) !in ops
    ensures ApplyAll(t, present, ops)[i] == t[i]
  {
    if ops != [] {
      RegionKept(t, present, ops[..|ops| - 1], i);
    }
  }

  /** Over any calls, a region in use is one that the table began with or that some call asked for. */
  lemma {:induction false} RegionAskedFor(t: Table, present: bool, ops: seq<Op>, i: nat)
    requires i < REGIONS && ApplyAll(t, present, ops)[i].Some?
    ensures ApplyAll(t, present, ops)[i] == t[i]
         || exists op :: op in ops && op.Set? && op.id == i && op.para.Some?
                         && ApplyAll(t, present, ops)[i] == Some(Requested(op.para.value))
  {
    if ops != [] {
      var last := ops[|ops| - 1];
      assert last in ops;
      if ApplyAll(t, present, ops[..|ops| - 1])[i] == ApplyAll(t, present, ops)[i] {
        RegionAskedFor(t, present, ops[..|ops| - 1], i);
      }
    }
  }

  predicate Covers(r: Option<Region>, a: nat) {
    r.Some? && r.value.base <= a < r.value.base + r.value.size
  }

  /** The comparison the hardware makes: the address bits above the region's size. */
  predicate Matches(rbar: nat, rasr: bv32, a: nat) {
    Has(rasr, ENABLE) && a / Pow2(SizeField(rasr) + 1) == rbar / Pow2(SizeField(rasr) + 1)
  }

  lemma MatchesIsCovers(rbar: nat, rasr: bv32, a: nat)
    ensures Matches(rbar, rasr, a) <==> Covers(Decode(rbar, rasr), a)
  {
    hide Has, ApField, SizeField, Pow2, PrivilegedAccess, UserAccess;
    if Has(rasr, ENABLE) {
      SameBlock(rbar, a, Pow2(SizeField(rasr) + 1));
    }
  }

  lemma SameBlock(x: nat, a: nat, m: nat)
    requires m >= 1
    ensures a / m == x / m <==> Floor(x, m) <= a < Floor(x, m) + m
  {
    var q := x / m;
    assert Floor(x, m) == q * m;
    if q * m <= a < q * m + m {
      UniqueResidue(a, q, m, a - q * m);
    }
  }

  /** A region that is accepted lies within the 32-bit address space. */
  lemma RequestFits(t: Table, present: bool, id: nat, p: Para)
    requires Settable(t, present, id, Some(p)) && p.baseAddr < TWO_32
    ensures p.baseAddr + p.size <= TWO_32
  {
    hide Pow2;
    Pow2Values();
    var k: nat :| 5 <= k <= 32 && p.size == Pow2(k);
    Pow2Splits(k, 32 - k);
    var q, n := p.baseAddr / p.size, Pow2(32 - k);
    assert p.baseAddr == q * p.size;
    assert n * p.size - q * p.size == (n - q) * p.size;
    assert (n - q) * p.size > 0;
    NoLess(n - q, p.size);
  }

  lemma NoLess(d: int, m: nat)
    requires d * m > 0
    ensures d * m >= m
  {
    assert (d - 1) * m == d * m - m;
  }

  /** The region whose attributes apply to an address: the highest enabled one that covers it. */
  function Governing(t: seq<Option<Region>>, a: nat): (i: int)
    ensures i == -1 ==> forall j :: 0 <= j < |t| ==> !Covers(t[j], a)
    ensures i != -1 ==> 0 <= i < |t| && Covers(t[i], a) && forall j :: i < j < |t| ==> !Covers(t[j], a)
  {
    if t == [] then -1
    else if Covers(t[|t| - 1], a) then |t| - 1
    else Governing(t[..|t| - 1], a)
  }

  /** Setting a region takes over exactly the addresses it covers that no higher region governs. */
  lemma SetGoverns(t: Table, present: bool, id: nat, p: Para, a: nat)
    requires Settable(t, present, id, Some(p))
    ensures var after := Apply(t, present, Set(id, Some(p)));
            Governing(after, a)
            == if p.baseAddr <= a < p.baseAddr + p.size && Governing(t, a) < id then id else Governing(t, a)
  {
    var after := Apply(t, present, Set(id, Some(p)));
    assert after[id] == Some(Requested(p));
    var g, h := Governing(t, a), Governing(after, a);
    assert Covers(after[id], a) <==> p.baseAddr <= a < p.baseAddr + p.size;
    forall j | 0 <= j < REGIONS && j != id ensures Covers(after[j], a) <==> Covers(t[j], a) { }
  }

  /** Disabling a region that was just set gives back the regions and the flags from before. */
  method SetThenDisable(u: Unit, id: nat, p: Para) returns (done: int, undone: int)
    requires u.Valid() && WordSized(Set(id, Some(p)))
    requires Settable(u.Regions(), u.present, id, Some(p))
    modifies u, u.beUsed
    ensures u.Valid() && done == 0 && undone == 0
    ensures u.Regions() == old(u.Regions()) && u.beUsed[..] == old(u.beUsed[..])
  {
    ghost var t := u.Regions();
    done := u.SetRegion(id, Some(p));
    undone := u.DisableRegion(id);
    assert u.Regions() == t[id := None] == t;
  }

  lemma {:induction false} Divides32(x: nat, k: nat)
    requires k >= 5 && x % Pow2(k) == 0
    ensures x % 32 == 0
  {
    if k > 5 {
      var q := x / Pow2(k);
      assert x == q * Pow2(k);
      assert x == (2 * q) * Pow2(k - 1) + 0;
      UniqueResidue(x, 2 * q, Pow2(k - 1), 0);
      Divides32(x, k - 1);
    } else {
      Pow2Values();
    }
  }

  lemma ClearLow(x: nat)
    requires x % 32 == 0 && x < TWO_32
    ensures And(x, 0xFFFF_FFE0) == x
  {
    hide And, Pow2;
    var y := x / 32;
    AndTwice(16 * y, 0x7FFF_FFF0);
    AndTwice(8 * y, 0x3FFF_FFF8);
    AndTwice(4 * y, 0x1FFF_FFFC);
    AndTwice(2 * y, 0xFFF_FFFE);
    AndTwice(y, 0x7FF_FFFF);
    Pow2Values();
    AndMask(y, 27);
  }

  lemma AlignedBase(p: Para, code: nat)
    requires p.baseAddr < TWO_32 && p.size == Pow2(code + 1) && 4 <= code <= 31
    ensures And(p.baseAddr, p.size - 1) == p.baseAddr % p.size
    ensures p.baseAddr % p.size == 0 ==> And(p.baseAddr, 0xFFFF_FFE0) == Floor(p.baseAddr, p.size) == p.baseAddr
  {
    AndMask(p.baseAddr, code + 1);
    if p.baseAddr % p.size == 0 {
      Divides32(p.baseAddr, code + 1);
      ClearLow(p.baseAddr);
    }
  }
}
