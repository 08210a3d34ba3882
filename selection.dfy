/** Question selection (`elegir_pregunta`): the pool of questions grouped by
    author is flattened into (author, question) pairs, the pairs whose question
    was already used are dropped, and one of the rest is chosen. */
module Selection {
  import opened Wrappers

  type Author = string
  type Question = string

  /** One item of the `preguntas` dictionary: an author and that author's
      questions, in file order. The pool is the dictionary's items in order. */
  datatype AuthorQuestions = AuthorQuestions(autor: Author, preguntas: seq<Question>)
  type Pool = seq<AuthorQuestions>

  /** The `(autor, p)` tuple that `elegir_pregunta` returns. */
  datatype Pick = Pick(autor: Author, pregunta: Question)

  /** `q` is one of the questions listed under author `a` in the pool. */
  predicate InPool(pool: Pool, a: Author, q: Question) {
    exists i :: 0 <= i < |pool| && pool[i].autor == a && q in pool[i].preguntas
  }

  /** Membership in a non-empty pool splits into its first item and the rest. */
  lemma InPoolCons(pool: Pool)
    requires pool != []
    ensures forall a, q :: InPool(pool, a, q) <==>
      (a == pool[0].autor && q in pool[0].preguntas) || InPool(pool[1..], a, q)
  {
  }

  /** The pairs of one author, in order. */
  function PairsOf(a: Author, qs: seq<Question>): (ps: seq<Pick>)
    ensures forall x :: x in ps <==> x.autor == a && x.pregunta in qs
  {
    if qs == [] then [] else [Pick(a, qs[0])] + PairsOf(a, qs[1..])
  }

  /** `todas`: every (author, question) pair of the pool, author by author. */
  function Todas(pool: Pool): (todas: seq<Pick>)
    ensures forall x :: x in todas <==> InPool(pool, x.autor, x.pregunta)
  {
    if pool == [] then []
    else
      InPoolCons(pool);
      PairsOf(pool[0].autor, pool[0].preguntas) + Todas(pool[1..])
  }

  /** `restantes`: the pairs of `todas`, in order, whose question is not in `usadas`. */
  function Unused(todas: seq<Pick>, usadas: seq<Question>): (restantes: seq<Pick>)
    ensures forall x :: x in restantes <==> x in todas && x.pregunta !in usadas
    ensures |restantes| <= |todas|
  {
    if todas == [] then []
    else if todas[0].pregunta in usadas then Unused(todas[1..], usadas)
    else [todas[0]] + Unused(todas[1..], usadas)
  }

  function Restantes(pool: Pool, usadas: seq<Question>): seq<Pick> {
    Unused(Todas(pool), usadas)
  }

  /** `random.choice(restantes)` when the list is not empty, with the random
      index given as `pick`; `None` for an empty list. */
  function Choice(restantes: seq<Pick>, pick: nat): (r: Option<Pick>)
    ensures r.None? <==> restantes == []
    ensures r.Some? ==> r.value in restantes
  {
    if restantes == [] then None else Some(restantes[pick % |restantes|])
  }

  /** Every element of the list is the choice for some index. */
  lemma ChoiceReaches(restantes: seq<Pick>, x: Pick) returns (pick: nat)
    requires x in restantes
    ensures Choice(restantes, pick) == Some(x)
  {
    pick :| pick < |restantes| && restantes[pick] == x;
    assert pick % |restantes| == pick;
  }

  /** `elegir_pregunta(preguntas, usadas)`. The random choice is the index
      `pick`, taken modulo the number of remaining pairs; `None` stands for
      the `(None, None)` result. The contract says: the result is `None`
      exactly when every question of the pool is already used, and otherwise
      it is a pair of the pool whose question is unused. */
  function ElegirPregunta(pool: Pool, usadas: seq<Question>, pick: nat): (r: Option<Pick>)
    ensures r.None? <==> forall a, q :: InPool(pool, a, q) ==> q in usadas
    ensures r.Some? ==> InPool(pool, r.value.autor, r.value.pregunta) && r.value.pregunta !in usadas
  {
    var restantes := Restantes(pool, usadas);
    var r := Choice(restantes, pick);
    if restantes == [] then
      assert forall a, q :: InPool(pool, a, q) ==> q in usadas by {
        forall a, q | InPool(pool, a, q) ensures q in usadas {
          assert Pick(a, q) in Todas(pool);
          assert Pick(a, q) !in restantes;
        }
      }
      r
    else
      assert r.value in restantes;
      r
  }

  /** `random.choice` may return any remaining pair: each unused pair of the
      pool is the result for some choice of `pick`. */
  lemma EveryRemainingPairSelectable(pool: Pool, usadas: seq<Question>, a: Author, q: Question)
    requires InPool(pool, a, q) && q !in usadas
    ensures exists pick: nat :: ElegirPregunta(pool, usadas, pick) == Some(Pick(a, q))
  {
    assert Pick(a, q) in Todas(pool);
    var i := ChoiceReaches(Restantes(pool, usadas), Pick(a, q));
    assert ElegirPregunta(pool, usadas, i) == Some(Pick(a, q));
  }
}
