/** The vote ledger of one day: the record stored under `votos[hoy]`, how a
    vote is recorded in it, and the tally that is shown from it. */
module Ledger {
  import opened Wrappers

  /** One `{nombre, voto}` entry of the day's `jugadores` list. */
  datatype Ballot = Ballot(nombre: string, voto: string)

  /** One item of the day's `resultados` dictionary. A Python dictionary keeps
      its keys unique and in insertion order; it is modelled as the ordered
      sequence of its items. */
  datatype Count = Count(persona: string, votos: int)

  /** `votos[hoy]`: the day's question, the counts per voted person and the
      list of entries, one per vote. */
  datatype DayRecord = DayRecord(pregunta: string, resultados: seq<Count>, jugadores: seq<Ballot>)

  /** The record created for a new day: empty results, no entries. */
  function FreshRecord(pregunta: string): DayRecord {
    DayRecord(pregunta, [], [])
  }

  // ----- The `resultados` dictionary -----

  predicate HasKey(res: seq<Count>, p: string) {
    exists i :: 0 <= i < |res| && res[i].persona == p
  }

  predicate DistinctKeys(res: seq<Count>) {
    forall i, j :: 0 <= i < j < |res| ==> res[i].persona != res[j].persona
  }

  /** `resultados.get(p, 0)`. */
  function Lookup(res: seq<Count>, p: string): int {
    if res == [] then 0
    else if res[0].persona == p then res[0].votos
    else Lookup(res[1..], p)
  }

  /** `resultados.setdefault(p, d)`: a missing key is added at the end with
      value `d`; a present key keeps its value and position. */
  function SetDefault(res: seq<Count>, p: string, d: int): (res': seq<Count>)
    ensures HasKey(res', p)
    ensures forall q :: HasKey(res', q) <==> HasKey(res, q) || q == p
    ensures |res'| == |res| + (if HasKey(res, p) then 0 else 1)
    ensures Lookup(res', p) == if HasKey(res, p) then Lookup(res, p) else d
    ensures forall q :: q != p ==> Lookup(res', q) == Lookup(res, q)
    ensures Total(res') == Total(res) + (if HasKey(res, p) then 0 else d)
    ensures |res'| >= |res| && forall i :: 0 <= i < |res| ==> res'[i] == res[i]
    ensures DistinctKeys(res) ==> DistinctKeys(res')
  {
    if HasKey(res, p) then res
    else
      var c := Count(p, d);
      assert (res + [c])[|res|].persona == p;
      assert forall q :: HasKey(res + [c], q) <==> HasKey(res, q) || q == p by {
        forall q ensures HasKey(res + [c], q) <==> HasKey(res, q) || q == p {
          if HasKey(res, q) {
            var i :| 0 <= i < |res| && res[i].persona == q;
            assert (res + [c])[i] == res[i];
          }
          if HasKey(res + [c], q) && q != p {
            var i :| 0 <= i < |res + [c]| && (res + [c])[i].persona == q;
            assert i < |res| && res[i] == (res + [c])[i];
          }
        }
      }
      TotalAppend(res, c);
      assert forall q :: Lookup(res + [c], q) == if q == p then d else Lookup(res, q) by {
        forall q ensures Lookup(res + [c], q) == if q == p then d else Lookup(res, q) {
          LookupAppend(res, c, q);
        }
      }
      res + [c]
  }

  /** `resultados[p] += 1` for a key that is present: that count rises by
      one, every other count and every key stay as they were, and the sum
      rises by one. */
  function Increment(res: seq<Count>, p: string): (res': seq<Count>)
    requires HasKey(res, p)
    ensures |res'| == |res|
    ensures forall i :: 0 <= i < |res| ==> res'[i].persona == res[i].persona
    ensures forall i :: 0 <= i < |res| ==> res'[i].votos >= res[i].votos
    ensures Lookup(res', p) == Lookup(res, p) + 1
    ensures forall q :: q != p ==> Lookup(res', q) == Lookup(res, q)
    ensures Total(res') == Total(res) + 1
  {
    if res[0].persona == p then
      var res' := [Count(p, res[0].votos + 1)] + res[1..];
      assert res'[1..] == res[1..];
      res'
    else
      assert HasKey(res[1..], p) by {
        var i :| 0 <= i < |res| && res[i].persona == p;
        assert res[1..][i - 1] == res[i];
      }
      var rest := Increment(res[1..], p);
      var res' := [res[0]] + rest;
      assert res'[1..] == rest;
      res'
  }

  /** Lines 74-75, `setdefault(seleccion, 0)` followed by `+= 1`: the
      chosen count becomes its old value (0 when absent) plus one, every
      other count stays, the sum rises by one, keys stay unique and counts
      stay positive. */
  function Bump(res: seq<Count>, p: string): (res': seq<Count>)
    ensures Lookup(res', p) == Lookup(res, p) + 1
    ensures forall q :: q != p ==> Lookup(res', q) == Lookup(res, q)
    ensures Total(res') == Total(res) + 1
    ensures DistinctKeys(res) ==> DistinctKeys(res')
    ensures (forall i :: 0 <= i < |res| ==> res[i].votos >= 1) ==>
              forall i :: 0 <= i < |res'| ==> res'[i].votos >= 1
  {
    var res0 := SetDefault(res, p, 0);
    var res' := Increment(res0, p);
    LookupHasKey(res, p);
    assert DistinctKeys(res0) ==> DistinctKeys(res') by {
      assert forall i :: 0 <= i < |res0| ==> res'[i].persona == res0[i].persona;
    }
    BumpPositive(res, p, res');
    res'
  }

  /** After `setdefault(p, 0)` and `+= 1`, counts that were all positive
      still are: the old ones only grow and a new key ends up with 1. */
  lemma BumpPositive(res: seq<Count>, p: string, res': seq<Count>)
    requires res' == Increment(SetDefault(res, p, 0), p)
    ensures (forall i :: 0 <= i < |res| ==> res[i].votos >= 1) ==>
              forall i :: 0 <= i < |res'| ==> res'[i].votos >= 1
  {
    if HasKey(res, p) {
      assert SetDefault(res, p, 0) == res;
    } else {
      IncrementLast(res, p, 0);
    }
  }

  /** `sum(resultados.values())`. With every count positive the sum is at
      least the number of keys. */
  function Total(res: seq<Count>): (t: int)
    ensures (forall i :: 0 <= i < |res| ==> res[i].votos >= 1) ==> t >= |res|
  {
    if res == [] then 0 else res[0].votos + Total(res[1..])
  }

  // ----- The `jugadores` list -----

  /** The corrected duplicate-vote test: `nombre` is the `nombre` field of
      some recorded entry. */
  predicate Voted(jugadores: seq<Ballot>, nombre: string) {
    exists i :: 0 <= i < |jugadores| && jugadores[i].nombre == nombre
  }

  predicate DistinctVoters(jugadores: seq<Ballot>) {
    forall i, j :: 0 <= i < j < |jugadores| ==> jugadores[i].nombre != jugadores[j].nombre
  }

  /** Number of entries whose `voto` is `p`. */
  function CountOf(jugadores: seq<Ballot>, p: string): (n: nat)
    ensures n <= |jugadores|
  {
    if jugadores == [] then 0
    else CountOf(jugadores[..|jugadores| - 1], p) + (if jugadores[|jugadores| - 1].voto == p then 1 else 0)
  }

  /** The record invariant that recording votes keeps: the results
      dictionary has one positive count per voted person, that count is the
      number of entries voting for that person, the counts add up to the
      number of entries, and no voter appears twice. */
  ghost predicate Tallied(r: DayRecord) {
    && DistinctKeys(r.resultados)
    && (forall i :: 0 <= i < |r.resultados| ==> r.resultados[i].votos >= 1)
    && (forall p :: Lookup(r.resultados, p) == CountOf(r.jugadores, p))
    && Total(r.resultados) == |r.jugadores|
    && DistinctVoters(r.jugadores)
  }

  // ----- Casting a vote (lines 68-76) -----

  datatype VoteOutcome = NoVoter | AlreadyVoted | Recorded

  datatype Voting = Voting(outcome: VoteOutcome, record: DayRecord)

  /** The vote block of `main`: with no voter name nothing happens (line 68);
      a voter who already voted is turned away (lines 69-70); otherwise the
      count of `seleccion` is created at 0 if missing and raised by one, and
      one `{nombre, voto}` entry is appended (lines 74-76). */
  function CastVote(r: DayRecord, nombre: string, seleccion: string): (v: Voting)
    ensures v.outcome == Recorded <==> nombre != "" && !Voted(r.jugadores, nombre)
    ensures v.outcome == NoVoter <==> nombre == ""
    ensures v.outcome != Recorded ==> v.record == r
    ensures v.record.pregunta == r.pregunta
    ensures v.outcome == Recorded ==> v.record.jugadores == r.jugadores + [Ballot(nombre, seleccion)]
    ensures Total(v.record.resultados) == Total(r.resultados) + (if v.outcome == Recorded then 1 else 0)
  {
    if nombre == "" then Voting(NoVoter, r)
    else if Voted(r.jugadores, nombre) then Voting(AlreadyVoted, r)
    else Voting(Recorded, r.(resultados := Bump(r.resultados, seleccion),
                             jugadores := r.jugadores + [Ballot(nombre, seleccion)]))
  }

  // ----- Lemmas about the results dictionary -----

  lemma HasKeyTail(res: seq<Count>, p: string)
    requires res != []
    ensures HasKey(res, p) <==> res[0].persona == p || HasKey(res[1..], p)
  {
  }

  lemma {:induction false} LookupHasKey(res: seq<Count>, p: string)
    ensures !HasKey(res, p) ==> Lookup(res, p) == 0
    ensures HasKey(res, p) && (forall i :: 0 <= i < |res| ==> res[i].votos >= 1) ==> Lookup(res, p) >= 1
  {
    if res != [] {
      LookupHasKey(res[1..], p);
      if res[0].persona != p && HasKey(res, p) {
        var i :| 0 <= i < |res| && res[i].persona == p;
        assert res[1..][i - 1] == res[i];
      }
      HasKeyTail(res, p);
    }
  }

  lemma {:induction false} TotalAppend(res: seq<Count>, c: Count)
    ensures Total(res + [c]) == Total(res) + c.votos
  {
    if res != [] {
      assert (res + [c])[1..] == res[1..] + [c];
      TotalAppend(res[1..], c);
    }
  }

  lemma {:induction false} LookupAppend(res: seq<Count>, c: Count, q: string)
    requires !HasKey(res, c.persona)
    ensures Lookup(res + [c], q) == if q == c.persona then c.votos else Lookup(res, q)
  {
    if res == [] {
      assert [c][1..] == [];
    } else {
      assert (res + [c])[1..] == res[1..] + [c];
      HasKeyTail(res, c.persona);
      LookupAppend(res[1..], c, q);
      if q == c.persona { assert res[0].persona != q; }
    }
  }

  /** A key added last by `setdefault` is the one `+= 1` changes. */
  lemma {:induction false} IncrementLast(res: seq<Count>, p: string, d: int)
    requires !HasKey(res, p)
    ensures HasKey(res + [Count(p, d)], p)
    ensures Increment(res + [Count(p, d)], p) == res + [Count(p, d + 1)]
  {
    var ext := res + [Count(p, d)];
    assert ext[|res|].persona == p;
    if res != [] {
      assert ext[1..] == res[1..] + [Count(p, d)];
      HasKeyTail(res, p);
      IncrementLast(res[1..], p, d);
      assert res[0].persona != p;
    }
  }

  // ----- Lemmas about the vote -----

  lemma CountOfAppend(jugadores: seq<Ballot>, b: Ballot, p: string)
    ensures CountOf(jugadores + [b], p) == CountOf(jugadores, p) + (if b.voto == p then 1 else 0)
  {
  }

  /** A vote by a named voter who has not voted yet is recorded: the count of
      `seleccion` rises by exactly one (from 0 when it was missing), every
      other count stays, exactly one entry `{nombre, voto: seleccion}` is
      appended, and the question is untouched. */
  lemma VoteRecordsOne(r: DayRecord, nombre: string, seleccion: string)
    requires nombre != "" && !Voted(r.jugadores, nombre)
    ensures CastVote(r, nombre, seleccion).outcome == Recorded
    ensures CastVote(r, nombre, seleccion).record.pregunta == r.pregunta
    ensures CastVote(r, nombre, seleccion).record.jugadores == r.jugadores + [Ballot(nombre, seleccion)]
    ensures Lookup(CastVote(r, nombre, seleccion).record.resultados, seleccion) == Lookup(r.resultados, seleccion) + 1
    ensures forall q :: q != seleccion ==>
              Lookup(CastVote(r, nombre, seleccion).record.resultados, q) == Lookup(r.resultados, q)
    ensures Total(CastVote(r, nombre, seleccion).record.resultados) == Total(r.resultados) + 1
  {
  }

  /** A new day's record satisfies the invariant. */
  lemma FreshTallied(pregunta: string)
    ensures Tallied(FreshRecord(pregunta))
  {
  }

  /** Recording a vote keeps the invariant: in particular the sum of the
      counts stays equal to the number of entries, and no voter appears
      twice. */
  lemma {:induction false} VotePreservesTallied(r: DayRecord, nombre: string, seleccion: string)
    requires Tallied(r)
    ensures Tallied(CastVote(r, nombre, seleccion).record)
  {
    if nombre != "" && !Voted(r.jugadores, nombre) {
      var b := Ballot(nombre, seleccion);
      var res' := Bump(r.resultados, seleccion);
      var js' := r.jugadores + [b];
      assert CastVote(r, nombre, seleccion).record == DayRecord(r.pregunta, res', js');
      forall p ensures Lookup(res', p) == CountOf(js', p) {
        CountOfAppend(r.jugadores, b, p);
      }
      forall i, j | 0 <= i < j < |js'| ensures js'[i].nombre != js'[j].nombre {
        if j == |r.jugadores| {
          assert js'[i] == r.jugadores[i];
        } else {
          assert js'[i] == r.jugadores[i] && js'[j] == r.jugadores[j];
        }
      }
    }
  }

  // ----- The tally (lines 80-86) -----

  lemma {:induction false} CountAtMostTotal(res: seq<Count>, i: int)
    requires 0 <= i < |res|
    requires forall k :: 0 <= k < |res| ==> res[k].votos >= 0
    ensures res[i].votos <= Total(res)
  {
    if i > 0 {
      assert res[1..][i - 1] == res[i];
      CountAtMostTotal(res[1..], i - 1);
    }
    NonNegTotal(res[1..]);
  }

  lemma {:induction false} NonNegTotal(res: seq<Count>)
    requires forall k :: 0 <= k < |res| ==> res[k].votos >= 0
    ensures Total(res) >= 0
  {
    if res != [] {
      assert forall k :: 0 <= k < |res[1..]| ==> res[1..][k] == res[k + 1];
      NonNegTotal(res[1..]);
    }
  }

  /** What the results display relies on: `total_votos` is the number of
      recorded votes, every listed count is between 1 and that total, so the
      total is positive whenever a line is printed and the percentage
      `count / total_votos` never divides by zero. */
  lemma TallyBounds(r: DayRecord)
    requires Tallied(r)
    ensures Total(r.resultados) == |r.jugadores|
    ensures r.resultados != [] ==> Total(r.resultados) > 0
    ensures forall i :: 0 <= i < |r.resultados| ==> 1 <= r.resultados[i].votos <= Total(r.resultados)
  {
    forall i | 0 <= i < |r.resultados| ensures r.resultados[i].votos <= Total(r.resultados) {
      CountAtMostTotal(r.resultados, i);
    }
  }

  // ----- The vote block as written (lines 45, 60, 63, 68-69) -----

  /** Lines 45 and 60 assign `jugadores` inside `main`, so there it names the
      day's list of `{nombre, voto}` entries and not the roster loaded at
      line 31. Line 63 offers that list in the name select box, which yields
      `None` when the list is empty and one of its entries otherwise. */
  predicate OfferedAsWritten(jugadores: seq<Ballot>, nombre: Option<Ballot>) {
    if jugadores == [] then nombre.None? else nombre.Some? && nombre.value in jugadores
  }

  /** Lines 68-69 as written, for a selection line 63 can make: `None` skips
      the vote, and an entry of the list is always `in` the list (Python
      compares the dictionaries by content), so the voter is always told
      they already voted. The record is never changed. */
  function CastVoteAsWritten(r: DayRecord, nombre: Option<Ballot>, seleccion: string): (v: Voting)
    requires OfferedAsWritten(r.jugadores, nombre)
    ensures v.outcome != Recorded && v.record == r
  {
    if nombre.None? then Voting(NoVoter, r)
    else if nombre.value in r.jugadores then Voting(AlreadyVoted, r)
    else assert false; Voting(AlreadyVoted, r)
  }

  /** On a new day the list is empty, so as written the only selection is
      `None` and no vote is recorded; a day's list therefore stays empty for
      good. With the roster offered and the names tested, a first vote is
      recorded. */
  lemma AsWrittenNewDayNoVote(pregunta: string, nombre: Option<Ballot>, voter: string, seleccion: string)
    requires OfferedAsWritten([], nombre)
    requires voter != ""
    ensures CastVoteAsWritten(FreshRecord(pregunta), nombre, seleccion) == Voting(NoVoter, FreshRecord(pregunta))
    ensures CastVote(FreshRecord(pregunta), voter, seleccion).outcome == Recorded
    ensures CastVote(FreshRecord(pregunta), voter, seleccion).record.jugadores == [Ballot(voter, seleccion)]
  {
  }
}
