/** The body of `main`: resolving today's record (lines 41-60) and casting a
    vote in it (lines 68-76), over the persisted state `usadas` (the used
    questions) and `votos` (the day records by ISO date). */
module Game {
  import opened Wrappers
  import opened Selection
  import opened Ledger

  /** `datetime.date.today().isoformat()`, passed in. */
  type Date = string

  /** The persisted state that `main` reads and rewrites. */
  datatype GameState = GameState(usadas: seq<Question>, votos: map<Date, DayRecord>)

  /** How today's question was obtained: an existing record, a new record
      for the chosen `(autor, pregunta)`, or no question (the warning of
      line 49, after which `main` returns). */
  datatype Resolution = Existing(pregunta: Question) | Created(autor: Author, pregunta: Question) | NoQuestion

  datatype Resolved = Resolved(resolution: Resolution, state: GameState)

  /** Lines 41-60. `elegir_pregunta` returning `(None, None)` and a chosen
      question that is the empty string both fail the test `not pregunta` at
      line 48. */
  function Resolve(s: GameState, pool: Pool, hoy: Date, pick: nat): (r: Resolved)
    ensures r.resolution.Existing? <==> hoy in s.votos
    ensures hoy in s.votos ==> r.resolution.pregunta == s.votos[hoy].pregunta
    ensures !r.resolution.Created? ==> r.state == s
    ensures r.resolution.Created? ==>
              var q := r.resolution.pregunta;
              && InPool(pool, r.resolution.autor, q) && q !in s.usadas && q != ""
              && r.state.usadas == s.usadas + [q]
              && r.state.votos == s.votos[hoy := FreshRecord(q)]
  {
    if hoy in s.votos then Resolved(Existing(s.votos[hoy].pregunta), s)
    else match ElegirPregunta(pool, s.usadas, pick)
      case None => Resolved(NoQuestion, s)
      case Some(Pick(autor, pregunta)) =>
        if pregunta == "" then Resolved(NoQuestion, s)
        else Resolved(Created(autor, pregunta),
                      GameState(s.usadas + [pregunta], s.votos[hoy := FreshRecord(pregunta)]))
  }

  /** One run of `main`: the date, the random choice, and the ballot
      submitted with the vote button (`None` when no vote is submitted). */
  datatype Interaction = Interaction(hoy: Date, pick: nat, ballot: Option<Ballot>)

  /** The state after one run of `main`: `usadas` only grows at its end,
      every recorded day keeps its question, and no date other than today
      changes. */
  function Step(s: GameState, pool: Pool, x: Interaction): (s': GameState)
    ensures s.usadas <= s'.usadas
    ensures forall d :: d in s.votos ==> d in s'.votos && s'.votos[d].pregunta == s.votos[d].pregunta
    ensures forall d :: d in s.votos && d != x.hoy ==> s'.votos[d] == s.votos[d]
  {
    var r := Resolve(s, pool, x.hoy, x.pick);
    if r.resolution.NoQuestion? || x.ballot.None? then r.state
    else
      var rec := r.state.votos[x.hoy];
      GameState(r.state.usadas,
                r.state.votos[x.hoy := CastVote(rec, x.ballot.value.nombre, x.ballot.value.voto).record])
  }

  /** Successive runs of `main`, one per interaction. */
  function Run(s: GameState, pool: Pool, xs: seq<Interaction>): GameState
    decreases |xs|
  {
    if xs == [] then s else Run(Step(s, pool, xs[0]), pool, xs[1..])
  }

  predicate NoRepeats(usadas: seq<Question>) {
    forall i, j :: 0 <= i < j < |usadas| ==> usadas[i] != usadas[j]
  }

  /** The invariant of the persisted state: every day record satisfies the
      ledger invariant, every day's question is logged as used, and no
      question is logged twice. */
  ghost predicate GameInv(s: GameState) {
    && (forall d :: d in s.votos ==> Tallied(s.votos[d]))
    && (forall d :: d in s.votos ==> s.votos[d].pregunta in s.usadas)
    && NoRepeats(s.usadas)
  }

  // ----- Resolving today's record -----

  /** Lines 47-50: with every question of the pool already used, the step
      aborts and leaves `usadas` and `votos` as they were. */
  lemma ResolveExhausted(s: GameState, pool: Pool, hoy: Date, pick: nat)
    requires hoy !in s.votos
    requires forall a, q :: InPool(pool, a, q) ==> q in s.usadas
    ensures Resolve(s, pool, hoy, pick) == Resolved(NoQuestion, s)
  {
  }

  /** Lines 47-56, for pools with no empty question among those left (the
      general case is `Resolve`'s own contract): a new day with a question
      left gets a question of the pool that was not used before; `usadas`
      becomes the old list with exactly that question appended; today's record holds that question with empty results and
      no entries; every other date's record is untouched. */
  lemma ResolveNewDay(s: GameState, pool: Pool, hoy: Date, pick: nat, a: Author, q: Question)
    requires hoy !in s.votos
    requires InPool(pool, a, q) && q !in s.usadas
    requires forall a', q' :: InPool(pool, a', q') && q' !in s.usadas ==> q' != ""
    ensures var r := Resolve(s, pool, hoy, pick);
            && r.resolution.Created?
            && InPool(pool, r.resolution.autor, r.resolution.pregunta)
            && r.resolution.pregunta !in s.usadas
            && r.state.usadas == s.usadas + [r.resolution.pregunta]
            && hoy in r.state.votos
            && r.state.votos[hoy] == DayRecord(r.resolution.pregunta, [], [])
            && r.state.votos.Keys == s.votos.Keys + {hoy}
            && (forall d :: d in s.votos ==> r.state.votos[d] == s.votos[d])
  {
  }

  /** Whatever happens, nothing is lost: `usadas` only grows at its end, and
      every date already recorded keeps its record. A resolution that does
      not create a record changes nothing. */
  lemma ResolveMonotone(s: GameState, pool: Pool, hoy: Date, pick: nat)
    ensures var r := Resolve(s, pool, hoy, pick);
            && s.usadas <= r.state.usadas
            && (forall d :: d in s.votos ==> d in r.state.votos && r.state.votos[d] == s.votos[d])
            && (!r.resolution.Created? ==> r.state == s)
  {
  }

  /** Resolving the same date twice: the second time returns the question
      the first stored and changes nothing, whatever the random choice. */
  lemma ResolveTwice(s: GameState, pool: Pool, hoy: Date, pick1: nat, pick2: nat)
    requires !Resolve(s, pool, hoy, pick1).resolution.NoQuestion?
    ensures var r1 := Resolve(s, pool, hoy, pick1);
            Resolve(r1.state, pool, hoy, pick2) == Resolved(Existing(r1.resolution.pregunta), r1.state)
  {
  }

  // ----- Whole runs of `main` -----

  /** Resolving today's record keeps the state invariant: a created
      record is fresh, and its question is logged exactly once. */
  lemma ResolvePreservesInv(s: GameState, pool: Pool, hoy: Date, pick: nat)
    requires GameInv(s)
    ensures GameInv(Resolve(s, pool, hoy, pick).state)
  {
  }

  /** Casting a ballot in an existing record keeps the state invariant and
      the record's question. */
  lemma VotePreservesInv(s: GameState, hoy: Date, b: Ballot)
    requires GameInv(s) && hoy in s.votos
    ensures var s' := GameState(s.usadas, s.votos[hoy := CastVote(s.votos[hoy], b.nombre, b.voto).record]);
            GameInv(s') && s'.votos[hoy].pregunta == s.votos[hoy].pregunta
  {
    VotePreservesTallied(s.votos[hoy], b.nombre, b.voto);
  }

  /** Helper for `StepPreservesInv`: the two shapes a run of `main` takes. */
  lemma StepCases(s: GameState, pool: Pool, x: Interaction)
    ensures var r := Resolve(s, pool, x.hoy, x.pick);
            if r.resolution.NoQuestion? || x.ballot.None? then Step(s, pool, x) == r.state
            else && x.hoy in r.state.votos
                 && Step(s, pool, x) == GameState(r.state.usadas, r.state.votos[x.hoy :=
                      CastVote(r.state.votos[x.hoy], x.ballot.value.nombre, x.ballot.value.voto).record])
  {
  }

  /** One run of `main` keeps the state invariant. */
  lemma StepPreservesInv(s: GameState, pool: Pool, x: Interaction)
    requires GameInv(s)
    ensures GameInv(Step(s, pool, x))
  {
    var r := Resolve(s, pool, x.hoy, x.pick);
    ResolvePreservesInv(s, pool, x.hoy, x.pick);
    StepCases(s, pool, x);
    if !r.resolution.NoQuestion? && x.ballot.Some? {
      VotePreservesInv(r.state, x.hoy, x.ballot.value);
    }
  }

  /** The records of today before the vote: the stored one, or none on a
      new day. */
  function TodaysEntries(s: GameState, hoy: Date): seq<Ballot> {
    if hoy in s.votos then s.votos[hoy].jugadores else []
  }

  /** A run with a ballot from a voter not yet listed today, on a day that
      has or gets a question, appends exactly that ballot to today's
      entries and raises the sum of today's counts by one; `usadas` is that
      of the resolution. */
  lemma StepRecordsBallot(s: GameState, pool: Pool, x: Interaction)
    requires x.ballot.Some? && x.ballot.value.nombre != ""
    requires !Voted(TodaysEntries(s, x.hoy), x.ballot.value.nombre)
    requires !Resolve(s, pool, x.hoy, x.pick).resolution.NoQuestion?
    ensures var s' := Step(s, pool, x);
            && x.hoy in s'.votos
            && s'.votos[x.hoy].jugadores == TodaysEntries(s, x.hoy) + [x.ballot.value]
            && Total(s'.votos[x.hoy].resultados) ==
                 (if x.hoy in s.votos then Total(s.votos[x.hoy].resultados) else 0) + 1
            && s'.usadas == Resolve(s, pool, x.hoy, x.pick).state.usadas
  {
  }

  /** A run with a ballot from a voter already listed today changes
      nothing. */
  lemma StepRefusesRepeat(s: GameState, pool: Pool, x: Interaction)
    requires x.ballot.Some? && x.hoy in s.votos
    requires Voted(s.votos[x.hoy].jugadores, x.ballot.value.nombre)
    ensures Step(s, pool, x) == s
  {
  }

  /** Over any sequence of runs of `main`: the invariant holds throughout
      (so the counts of every day always add up to its number of entries and
      nobody is recorded twice on a day), `usadas` never loses an entry, and
      a day's question never changes once its record exists. */
  lemma {:induction false} RunPreserves(s: GameState, pool: Pool, xs: seq<Interaction>)
    requires GameInv(s)
    ensures var s' := Run(s, pool, xs);
            && GameInv(s')
            && s.usadas <= s'.usadas
            && (forall d :: d in s.votos ==> d in s'.votos && s'.votos[d].pregunta == s.votos[d].pregunta)
    decreases |xs|
  {
    if xs != [] {
      StepPreservesInv(s, pool, xs[0]);
      RunPreserves(Step(s, pool, xs[0]), pool, xs[1..]);
    }
  }

  /** At the first launch, `cargar_json` falls back to `[]` and `{}` (lines
      38-39): that state satisfies the invariant, and so does the state
      after any sequence of runs from it. */
  lemma FirstLaunchInv(pool: Pool, xs: seq<Interaction>)
    ensures GameInv(GameState([], map[]))
    ensures GameInv(Run(GameState([], map[]), pool, xs))
  {
    RunPreserves(GameState([], map[]), pool, xs);
  }

  // ----- The state as `main` updates it -----

  /** `usadas` and `votos` as `main` holds and rewrites them; `preguntas` is
      read and never changed. */
  class Game {
    const preguntas: Pool
    var usadas: seq<Question>
    var votos: map<Date, DayRecord>

    function State(): GameState
      reads this
    {
      GameState(usadas, votos)
    }

    ghost predicate Valid()
      reads this
    {
      GameInv(State())
    }

    /** The state as loaded from the files at lines 37-39. */
    constructor (preguntas: Pool, usadas: seq<Question>, votos: map<Date, DayRecord>)
      ensures this.preguntas == preguntas && this.usadas == usadas && this.votos == votos
      ensures GameInv(GameState(usadas, votos)) ==> Valid()
    {
      this.preguntas := preguntas;
      this.usadas := usadas;
      this.votos := votos;
    }

    /** Lines 41-60. */
    method ResolveToday(hoy: Date, pick: nat) returns (res: Resolution)
      modifies this
      ensures Resolve(old(State()), preguntas, hoy, pick) == Resolved(res, State())
      ensures old(Valid()) ==> Valid()
    {
      ghost var s := State();
      if hoy in votos {
        res := Existing(votos[hoy].pregunta);
        return;
      }
      var elegida := ElegirPregunta(preguntas, usadas, pick);
      if elegida.None? || elegida.value.pregunta == "" {
        res := NoQuestion;
        return;
      }
      var pregunta := elegida.value.pregunta;
      usadas := usadas + [pregunta];
      votos := votos[hoy := FreshRecord(pregunta)];
      res := Created(elegida.value.autor, pregunta);
      if GameInv(s) {
        ResolvePreservesInv(s, preguntas, hoy, pick);
      }
    }

    /** Lines 68-76, on a date whose record exists (the vote block is only
      reached once today's record has been resolved). */
    method CastTodayVote(hoy: Date, nombre: string, seleccion: string) returns (outcome: VoteOutcome)
      requires hoy in votos
      modifies this
      ensures usadas == old(usadas)
      ensures var v := CastVote(old(votos)[hoy], nombre, seleccion);
              outcome == v.outcome && votos == old(votos)[hoy := v.record]
      ensures old(Valid()) ==> Valid()
    {
      var rec := votos[hoy];
      if nombre == "" {
        outcome := NoVoter;
        return;
      }
      // The intended test: `nombre` is a roster name, looked up among the
      // entries' `nombre` fields (as written, see `CastVoteAsWritten`).
      if Voted(rec.jugadores, nombre) {
        outcome := AlreadyVoted;
        return;
      }
      var resultados := SetDefault(rec.resultados, seleccion, 0);
      resultados := Increment(resultados, seleccion);
      var jugadores := rec.jugadores + [Ballot(nombre, seleccion)];
      votos := votos[hoy := rec.(resultados := resultados, jugadores := jugadores)];
      outcome := Recorded;
      if old(Valid()) {
        VotePreservesInv(old(State()), hoy, Ballot(nombre, seleccion));
      }
    }

    /** One run of `main`: resolve today's record and, unless that failed,
      cast the submitted ballot. */
    method Play(hoy: Date, pick: nat, ballot: Option<Ballot>) returns (res: Resolution, outcome: Option<VoteOutcome>)
      modifies this
      ensures State() == Step(old(State()), preguntas, Interaction(hoy, pick, ballot))
      ensures res == Resolve(old(State()), preguntas, hoy, pick).resolution
      ensures outcome.Some? <==> !res.NoQuestion? && ballot.Some?
      ensures old(Valid()) ==> Valid()
    {
      res := ResolveToday(hoy, pick);
      if res.NoQuestion? || ballot.None? {
        outcome := None;
        return;
      }
      var o := CastTodayVote(hoy, ballot.value.nombre, ballot.value.voto);
      outcome := Some(o);
    }
  }
}
