# Daily question game: a Dafny model of `juego_streamlit.py`

The game shows one question per day. It is drawn at random from a pool of
questions grouped by author (`preguntas`), and each question is used only once
(`usadas`). Players vote once a day for a person. The day's record (`votos[hoy]`)
keeps the question, a count per voted person (`resultados`) and the list of
`{nombre, voto}` entries (`jugadores`). The results show the sum of the counts
and each person's count.

The model has four modules:

- `Wrappers` (`wrappers.dfy`) holds the `Option` type that stands for
  Python's `None`.
- `Selection` (`selection.dfy`) models `elegir_pregunta` as a pure function.
  The pool is the dictionary's items in order. `random.choice` becomes an index
  `pick` taken modulo the number of remaining pairs. A lemma shows that every
  remaining pair is the result for some `pick`, so the model allows every choice
  `random.choice` can make.
- `Ledger` (`ledger.dfy`) models the day record, the vote (`setdefault`,
  `+= 1`, `append`) and the tally. `resultados` is the ordered sequence of the
  dictionary's items, with its keys kept unique. `Tallied` is the record
  invariant:
  - each count is positive and equals the number of entries voting for that
    person;
  - the counts add up to the number of entries;
  - no voter appears twice.
- `Game` (`game.dfy`) models the body of `main`.
  - The function `Resolve` covers lines 41-60 and `Step` covers one whole
    run. `Run` chains many runs.
  - The class `Game` holds `usadas` and `votos` and updates them in place. Its
    methods are proved equal to those functions, and the lemmas are stated
    about the functions.

`datetime.date.today()` is the parameter `hoy`. The random choice is the
parameter `pick`. Pressing the vote button is a call with a ballot
(`Option<Ballot>`). A missing voter name (`None` from the select box) is the
empty string.

Points where the model follows the code closely:

- A day also gets no question when the chosen question is the empty string.
  Line 48 tests `not pregunta`, and `""` is falsy.
- The used questions are a list, not a set.
- Voters are stored as `{nombre, voto}` entries.
- The vote block (lines 63-76) is modelled twice. `CastVote` is the intended
  vote: a voter name from the roster, tested against the entries' `nombre`
  fields. `CastVoteAsWritten` is the code as it stands, which never records a
  vote (see Findings). The rest of the model uses `CastVote`.

## Model

| member | source | states |
|---|---|---|
| Selection.PairsOf | juego_streamlit.py:25 | the pairs built for one author are exactly that author's questions, each paired with the author |
| Selection.Todas | juego_streamlit.py:25 | `todas` contains a pair exactly when its question is listed under its author in the pool |
| Selection.Unused | juego_streamlit.py:26 | `restantes` holds exactly the pairs of `todas` whose question is not in `usadas`, and it is no longer than `todas` |
| Selection.Choice | juego_streamlit.py:27-29 | the result is nothing exactly when the list is empty (line 28 returns before `random.choice` is called), and otherwise an element of the list |
| Selection.ChoiceReaches | juego_streamlit.py:29 | every element of the list is the choice for some random index |
| Selection.ElegirPregunta | juego_streamlit.py:24-29 | the result is `(None, None)` exactly when every question of the pool is in `usadas`; otherwise it is a pair `(autor, p)` with `p` listed under `autor` and `p` not in `usadas`. Being a function, it changes neither `preguntas` nor `usadas` |
| Selection.EveryRemainingPairSelectable | juego_streamlit.py:24-29 | every unused (author, question) pair of the pool can be the one returned |
| Ledger.SetDefault | juego_streamlit.py:74 | after `setdefault(p, d)` the keys are exactly the old keys plus `p`, with one more item only when `p` was missing; `p`'s value is the old one when it was present and `d` otherwise; every other key keeps its value; the sum rises by `d` only when `p` was missing; the items already there stay in place and keys stay unique |
| Ledger.Increment | juego_streamlit.py:75 | `resultados[p] += 1` on a present key raises `p`'s count by one, leaves every other count and every key in place, lowers no count, and raises the sum by one |
| Ledger.IncrementLast | juego_streamlit.py:74-75 | a key just added by `setdefault` is the one that `+= 1` raises |
| Ledger.Bump | juego_streamlit.py:74-75 | `setdefault(seleccion, 0)` followed by `+= 1` gives `seleccion` its old count (0 when absent) plus one, leaves every other count unchanged, raises the sum by one, and keeps the keys unique and the counts positive |
| Ledger.BumpPositive | juego_streamlit.py:74-75 | when all counts were positive they still are after `setdefault(seleccion, 0)` and `+= 1` |
| Ledger.Total | juego_streamlit.py:82 | when every count is positive, `sum(resultados.values())` is at least the number of voted persons |
| Ledger.CastVote | juego_streamlit.py:68-76 | the intended vote block: a vote is recorded exactly when a voter name is given and no entry has that `nombre`; without a name the outcome is "no voter"; a refused vote leaves the record as it was; a recorded vote appends exactly the entry `{nombre, voto: seleccion}`; the question never changes; the sum of the counts rises by one exactly when a vote is recorded |
| Ledger.VoteRecordsOne | juego_streamlit.py:68-76 | a named voter not yet in the list is recorded: `seleccion`'s count rises by exactly one, other counts stay the same, exactly one entry `{nombre, voto: seleccion}` is appended, and the question is unchanged |
| Ledger.FreshTallied | juego_streamlit.py:52-56 | a new day's record (empty results, no entries) satisfies the record invariant |
| Ledger.VotePreservesTallied | juego_streamlit.py:69-76 | every vote, recorded or refused, keeps the record invariant: counts equal the number of entries per person, the counts add up to the number of entries, and no voter appears twice |
| Ledger.CountAtMostTotal | juego_streamlit.py:82-85 | with non-negative counts, each count is at most the sum of all counts |
| Ledger.TallyBounds | juego_streamlit.py:80-86 | for a record satisfying the invariant, `total_votos` is the number of entries and every shown count lies between 1 and `total_votos`, so the total is positive whenever a line is printed |
| Ledger.CastVoteAsWritten | juego_streamlit.py:63-69 | for any name line 63 can offer (`None` for an empty list, otherwise an entry of the day's list), no vote is recorded and the record is left unchanged |
| Ledger.AsWrittenNewDayNoVote | juego_streamlit.py:45-76 | on a new day the code as written offers only `None` and records nothing, while the intended vote records a first voter's entry |
| Game.Resolve | juego_streamlit.py:41-60 | the stored question is returned exactly when today already has a record; a resolution that creates nothing changes nothing; a created question is a non-empty, unused question of the pool, `usadas` becomes the old list plus exactly that question, and `votos` gains today's new record with that question, empty results and no entries, every other date unchanged |
| Game.ResolveExhausted | juego_streamlit.py:47-50 | on a new day with every question of the pool already used, the step aborts and leaves `usadas` and `votos` unchanged |
| Game.ResolveNewDay | juego_streamlit.py:47-56 | corollary of `Resolve` for pools with no empty question among those left: a new day with an unused question left always gets a question; it comes from the pool and was unused; `usadas` becomes the old list plus exactly that question; today's record has that question, empty results and no entries; every other date keeps its record |
| Game.ResolveMonotone | juego_streamlit.py:41-60 | `usadas` only grows at its end; every date already recorded keeps its record; a resolution that creates nothing changes nothing |
| Game.ResolveTwice | juego_streamlit.py:41-56 | resolving the same date a second time returns the question stored the first time and changes nothing, whatever the random choice |
| Game.ResolvePreservesInv | juego_streamlit.py:47-56 | resolution keeps the state invariant: every record is tallied, every day's question is in `usadas`, and `usadas` has no repeats |
| Game.VotePreservesInv | juego_streamlit.py:69-76 | a vote in today's record keeps the state invariant and the day's question |
| Game.Step | juego_streamlit.py:41-76 | one run of `main` only appends to `usadas`, keeps every recorded day with its question, and leaves every date other than today alone |
| Game.StepRecordsBallot | juego_streamlit.py:41-76 | a run with a ballot from a voter not yet listed today, on a day that has or gets a question, appends exactly that ballot to today's entries (after the stored ones, or as the only one on a new day), raises the sum of today's counts by one, and keeps the `usadas` of the resolution |
| Game.StepRefusesRepeat | juego_streamlit.py:42-70 | a run with a ballot from a voter already listed today leaves `usadas` and `votos` exactly as they were |
| Game.StepPreservesInv | juego_streamlit.py:41-76 | one run of `main` keeps the state invariant |
| Game.RunPreserves | juego_streamlit.py:41-76 | after any sequence of runs: the invariant still holds, so every day's counts add up to its entries and no one is recorded twice; no used question is lost; no day's question has changed |
| Game.FirstLaunchInv | juego_streamlit.py:37-39 | the state loaded when no file exists (`[]` for `usadas`, `{}` for `votos`) satisfies the state invariant, and so does the state after any sequence of runs from it |
| Game.Game.constructor | juego_streamlit.py:37-39 | the game starts from the loaded `preguntas`, `usadas` and `votos`, and is valid whenever the loaded state satisfies the state invariant (which the first launch does, see `FirstLaunchInv`) |
| Game.Game.ResolveToday | juego_streamlit.py:41-60 | the new state and result are those of `Resolve` on the old state, and the state invariant is kept |
| Game.Game.CastTodayVote | juego_streamlit.py:68-76 | `usadas` is unchanged; today's record becomes the vote's result and the outcome is returned; the state invariant is kept |
| Game.Game.Play | juego_streamlit.py:41-76 | the new state is `Step` of the old one; a vote is attempted exactly when resolution did not abort and a ballot was submitted; the state invariant is kept |
## Left out

- Streamlit rendering and widgets (lines 34-35, 49, 62-63, 70-73, 78-94) are UI. The warning, the info and success messages, and the listing of who voted for whom are not modelled. The vote button becomes the ballot parameter. The radio's options (the pool's authors) are not enforced on `seleccion`: any target is accepted.
- Ledger.CastVote: its voter name parameter stands for the intended choice from the roster loaded at line 31. As written, line 63 offers the day's entries instead and no vote is ever recorded; that behaviour is `Ledger.CastVoteAsWritten`, described under Findings.
- JSON file I/O (`cargar_json`, `guardar_json`, `os.path.exists`, lines 14-22, 37-39, 57-58, 77) is disk plumbing. The persisted documents are in-memory fields, and each write is taken to store exactly the updated value.
- A stored day record without a `jugadores` key is not modelled: every record has the list. Line 45 reads such a record with the default `[]`, and line 76 would then raise `KeyError` when appending to `votos[hoy]["jugadores"]`. Records created at lines 52-56 always have the key.
- `datetime.date.today()` (line 41) is the parameter `hoy`.
- The randomness of `random.choice` (line 29) is not modelled. Only which elements it can return is modelled, through the parameter `pick`.
- The floating-point percentage `round(count / total_votos * 100, 1)` (line 85) is not modelled: floats and rounding are out of scope. `Ledger.TallyBounds` states that the total is positive whenever a count is shown.
- On a new day, line 59 binds the displayed `resultados` to a new empty dictionary, and line 60 leaves the voter select box with no options, so as written no vote is cast in that run. Only the stored state is modelled.
- Concurrency: simultaneous players can lose updates, because the code has no locking or atomic write. The model treats each run as running alone.
- Listing voters grouped by target and resetting the game are not in `juego_streamlit.py`, so they are not modelled.

## Findings

| source | as written | input that shows it | evidently intended | confidence | as-written member | corrected member |
|---|---|---|---|---|---|---|
| juego_streamlit.py:45-69 | lines 45 and 60 assign `jugadores` inside `main`, which hides the roster loaded at line 31. Line 63 then offers the day's `{nombre, voto}` entries as voter names (nothing for an empty list), and line 69 tests the chosen entry against the list it came from, which is always true | a new day: the list is empty, the select box yields `None`, and no vote is recorded; since every day starts empty, no day ever gets an entry | offer the roster at line 63, and at line 69 refuse a name that is the `nombre` field of a recorded entry | high, not executed | Ledger.CastVoteAsWritten | Ledger.VotePreservesTallied |
