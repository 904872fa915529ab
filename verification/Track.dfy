/** Reference runs with the position in a basic block and the bytes that have been taken into
    blocks so far.  All of it is decided by the reference machine; nothing is said about caches. */
module Track {
  import opened Common
  import opened Instr
  import opened PhysMem
  import opened Mmu
  import opened Exec
  import opened Access
  import opened Block
  import opened Machine

  /** pos counts the instructions since the block began; code holds the bytes cached so far. */
  datatype Track = Track(r: Ref, pos: nat, code: iset<nat>)

  /** The bytes cached once the current block has been looked up. */
  ghost function Entered(c: Csrs, t: Track): iset<nat> {
    if t.pos == 0 then t.code + WindowBytes(c, t.r.mem, t.r.pc, 0) else t.code
  }

  /** After one instruction: the next entry of the block, or the start of another block. */
  ghost function Following(c: Csrs, t: Track): Track
    requires RefStep(c, t.r).Running?
  {
    var ended := Ends(FetchDecode(c, t.r.mem, t.r.pc)) || t.pos + 1 == MAX_SIZE - 1;
    Track(RefStep(c, t.r).r, if ended then 0 else t.pos + 1, Entered(c, t))
  }

  // ---------------------------------------------------------------- what a run must respect

  /** Memory accesses stay off the poison page, stores off the given bytes. */
  ghost predicate EffectSafe(c: Csrs, m: Mem, e: Effect, code: iset<nat>) {
    match e
    case Load(_, va, _, _) => !InPoisonPage(va)
    case Store(va, n, _) =>
      && !InPoisonPage(va)
      && var t := Translate(c, m, USER, WRITE, va);
         t.status == OK ==> forall q: nat :: t.pa <= q < t.pa + n ==> q !in code
    case _ => true
  }

  /** A block does not reach into the poison page, and the current instruction does not touch
      that page or store to a byte that has been cached. */
  ghost predicate StepSafe(c: Csrs, t: Track) {
    && (t.pos == 0 ==> OffPoison(c, t.r.mem, t.r.pc, 0))
    && EffectSafe(c, t.r.mem, EffectOf(FetchDecode(c, t.r.mem, t.r.pc), t.r.pc, t.r.regs), Entered(c, t))
  }

  ghost predicate SafeFor(c: Csrs, t: Track, k: nat)
    decreases k
  {
    k == 0 || (StepSafe(c, t) && (RefStep(c, t.r).Running? ==> SafeFor(c, Following(c, t), k - 1)))
  }

  /** The run does not modify code that is cached. */
  ghost predicate SafeRun(c: Csrs, t: Track) { forall k: nat :: SafeFor(c, t, k) }

  // ---------------------------------------------------------------- when a run survives its fetches

  /** Where a block begins, no word of its window ends the process when it is fetched, except when
      the first instruction of the block would end it anyway. */
  ghost predicate StartSurvives(c: Csrs, t: Track) {
    t.pos == 0 && WindowLost(c, t.r.mem, t.r.pc, 0) ==> RefStep(c, t.r) == Done(ABORT, t.r)
  }

  ghost predicate SurvivesFor(c: Csrs, t: Track, k: nat)
    decreases k
  {
    k == 0 || (StartSurvives(c, t) && (RefStep(c, t.r).Running? ==> SurvivesFor(c, Following(c, t), k - 1)))
  }

  ghost predicate Survives(c: Csrs, t: Track) { forall k: nat :: SurvivesFor(c, t, k) }

  // ---------------------------------------------------------------- moving along a run

  lemma {:induction false} SafeNow(c: Csrs, t: Track)
    requires SafeRun(c, t)
    ensures StepSafe(c, t)
    ensures RefStep(c, t.r).Running? ==> SafeRun(c, Following(c, t))
  {
    hide RefStep, StepSafe, Following;
    assert SafeFor(c, t, 1);
    if RefStep(c, t.r).Running? {
      forall k: nat ensures SafeFor(c, Following(c, t), k) {
        assert SafeFor(c, t, k + 1);
      }
    }
  }

  lemma {:induction false} SurvivesNow(c: Csrs, t: Track)
    requires Survives(c, t)
    ensures StartSurvives(c, t)
  {
    hide RefStep, StartSurvives;
    assert SurvivesFor(c, t, 1);
  }

  lemma {:induction false} SurvivesShorter(c: Csrs, t: Track, j: nat, k: nat)
    requires SurvivesFor(c, t, k) && j <= k
    ensures SurvivesFor(c, t, j)
    decreases j
  {
    hide RefStep, StartSurvives, Following;
    if j > 0 && RefStep(c, t.r).Running? { SurvivesShorter(c, Following(c, t), j - 1, k - 1); }
  }
}
