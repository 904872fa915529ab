/** Address translation in 64-bit mode (memory/src/memory.cpp, MMU64::translate): the walk of
    section 4.3.2 of the RISC-V Privileged Architecture, without the canonical-address check,
    the A/D update and the check of A, D and U in non-leaf entries. */
module Mmu {
  import opened Common
  import opened Bits
  import opened PhysMem
  import opened Pte

  datatype Mode = BARE | SV39 | SV48 | SV57
  datatype PrivLevel = USER | SUPERVISOR | MACHINE
  datatype AccessType = READ | WRITE | FETCH

  /** The CSR fields translation depends on: satp.MODE, satp.PPN, mstatus.MXR, mstatus.SUM. */
  datatype Csrs = Csrs(mode: Mode, root: nat, mxr: bool, sum: bool)

  datatype Result = Result(status: SimStatus, pa: nat)

  const PAGE_FAULT_RES := Result(MMU64_PAGE_FAULT, 0)

  function ModeToLevels(mode: Mode): (n: nat)
    requires mode != BARE
    ensures 3 <= n <= 5
  {
    match mode
    case SV39 => 3
    case SV48 => 4
    case SV57 => 5
  }

  /** va.VPN[i]. */
  function GetVpn(va: nat, i: nat): nat
    requires i < 5
  {
    var lo := 12 + i * 9;
    GetBitField(64, lo + 9 - 1, lo, va)
  }

  predicate CheckLeafFlags(priv: PrivLevel, access: AccessType, pte: nat, mxr: bool, sum: bool) {
    var isUser := priv == USER;
    var userOk := U(pte) && isUser;
    var superRwOk := !isUser && (!U(pte) || sum);
    var superXOk := !isUser && !U(pte);
    match access
    case READ => (R(pte) || (X(pte) && mxr)) && (userOk || superRwOk)
    case WRITE => W(pte) && (userOk || superRwOk)
    case FETCH => X(pte) && (userOk || superXOk)
  }

  function CalcPhysAddr(pte: nat, va: nat, i: nat): nat
    requires i < 5
  {
    var superPageBits := i * 9;
    var offsetBits := 12 + superPageBits;
    var offset := GetBitField(64, offsetBits - 1, 0, va);
    var ppn := GetBitField(64, PTE_PPN_HI, PTE_PPN_LO + superPageBits, pte);
    offset + Shl(64, ppn, offsetBits)
  }

  datatype Walk = Leaf(pte: nat, level: nat) | Fault(status: SimStatus)

  function PteAddr(table: nat, va: nat, i: nat): nat
    requires i < 5
  {
    table * PAGE_SIZE + GetVpn(va, i) * 8
  }

  predicate Malformed(pte: nat) { !V(pte) || (!R(pte) && W(pte)) || Reserved(pte) }

  /** The page table walk from `table` at level i. */
  function WalkTable(m: Mem, va: nat, i: nat, table: nat): Walk
    requires i < 5
    decreases i
  {
    var read := Read(m, PteAddr(table, va, i), 8);
    var pte := read.value;
    if read.status != OK then Fault(read.status)
    else if Malformed(pte) then Fault(MMU64_PAGE_FAULT)
    else if R(pte) || X(pte) then Leaf(pte, i)
    else if i == 0 then Fault(MMU64_PAGE_FAULT)
    else WalkTable(m, va, i - 1, PtePpn(pte))
  }

  /** What is decided once a leaf has been found. */
  function FinishLeaf(c: Csrs, priv: PrivLevel, access: AccessType, va: nat, pte: nat, i: nat): Result
    requires i < 5
  {
    if !CheckLeafFlags(priv, access, pte, c.mxr, c.sum) then PAGE_FAULT_RES
    else if i > 0 && GetBitField(64, 10 + 9 * i - 1, 10, pte) != 0 then PAGE_FAULT_RES
    else if !(D(pte) && A(pte)) then Result(ABORT, 0)
    else Result(OK, CalcPhysAddr(pte, va, i))
  }

  function Finish(c: Csrs, priv: PrivLevel, access: AccessType, va: nat, w: Walk): Result
    requires w.Leaf? ==> w.level < 5
  {
    match w
    case Fault(s) => Result(s, 0)
    case Leaf(pte, i) => FinishLeaf(c, priv, access, va, pte, i)
  }

  lemma {:induction false} WalkLevel(m: Mem, va: nat, i: nat, table: nat)
    requires i < 5
    ensures var w := WalkTable(m, va, i, table); w.Leaf? ==> w.level <= i && !Malformed(w.pte) && (R(w.pte) || X(w.pte))
    ensures var w := WalkTable(m, va, i, table); w.Fault? ==> w.status != OK
    decreases i
  {
    hide PteAddr, PtePpn, Reserved, FromLE;
    var read := Read(m, PteAddr(table, va, i), 8);
    if read.status == OK && !Malformed(read.value) && i > 0 && !R(read.value) && !X(read.value) {
      WalkLevel(m, va, i - 1, PtePpn(read.value));
    }
  }

  function Translate(c: Csrs, m: Mem, priv: PrivLevel, access: AccessType, va: nat): Result {
    if c.mode == BARE then Result(OK, va)
    else
      var top := ModeToLevels(c.mode) - 1;
      WalkLevel(m, va, top, c.root);
      Finish(c, priv, access, va, WalkTable(m, va, top, c.root))
  }

  /** The loop of MMU64::translate computes the recursive walk above. */
  method WalkLoop(pm: PhysMemory, va: nat, top: nat, root: nat) returns (w: Walk)
    requires pm.Valid() && top < 5
    ensures w == WalkTable(pm.Contents(), va, top, root)
  {
    ghost var m := pm.Contents();
    var i := top;
    var table := root;
    while true
      invariant i < 5
      invariant WalkTable(m, va, top, root) == WalkTable(m, va, i, table)
      decreases i
    {
      var read, _ := pm.ReadInt(PteAddr(table, va, i), 8);
      if read.status != OK { return Fault(read.status); }
      var pte := read.value;
      if Malformed(pte) { return Fault(MMU64_PAGE_FAULT); }
      if R(pte) || X(pte) { return Leaf(pte, i); }
      if i == 0 { return Fault(MMU64_PAGE_FAULT); }
      table := PtePpn(pte);
      i := i - 1;
    }
  }

  /** MMU64::translate. */
  method TranslateVa(pm: PhysMemory, c: Csrs, priv: PrivLevel, access: AccessType, va: nat) returns (r: Result)
    requires pm.Valid()
    ensures r == Translate(c, pm.Contents(), priv, access, va)
  {
    if c.mode == BARE { return Result(OK, va); }
    var top := ModeToLevels(c.mode) - 1;
    var w := WalkLoop(pm, va, top, c.root);
    WalkLevel(pm.Contents(), va, top, c.root);
    r := Finish(c, priv, access, va, w);
  }
}
