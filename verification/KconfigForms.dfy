/** Alternatives of conjunctions of symbols: how one such form bounds another in every configuration. */
module KconfigForms {
  import opened Bytes
  import opened KconfigExpr
  import opened KconfigMeaning

  /** Symbols that must all hold; and terms of which one must hold. */
  type Term = seq<string>
  type Form = seq<Term>

  function Best(v: Valuation, f: Form): (r: Tri) {
    if f == [] then 0 else Max(Best(v, f[..|f| - 1]), Least(v, f[|f| - 1]))
  }

  predicate Within(t: Term, u: Term) { forall d | d in t :: d in u }

  /** A term of g is in t. */
  ghost predicate Has(g: Form, t: Term) { exists u | u in g :: Within(u, t) }

  /** Every term of f has a term of g in it. */
  ghost predicate Covers(f: Form, g: Form) { forall t | t in f :: Has(g, t) }

  lemma {:induction false} BestAtLeast(v: Valuation, f: Form, t: Term)
    requires t in f
    ensures Least(v, t) <= Best(v, f)
  {
    if t != f[|f| - 1] {
      BestAtLeast(v, f[..|f| - 1], t);
    }
  }

  lemma {:induction false} BestAtMost(v: Valuation, f: Form, w: Tri)
    requires forall t | t in f :: Least(v, t) <= w
    ensures Best(v, f) <= w
  {
    if f != [] {
      assert f[|f| - 1] in f;
      BestAtMost(v, f[..|f| - 1], w);
    }
  }

  lemma LeastWithin(v: Valuation, t: Term, u: Term)
    requires Within(u, t)
    ensures Least(v, t) <= Least(v, u)
  {
    forall d | d in u
      ensures v(d) >= Least(v, t)
    {
      Bounds(v, t, d);
    }
    LeastAtLeast(v, u, Least(v, t));
  }

  lemma CoveredBound(v: Valuation, f: Form, g: Form)
    requires Covers(f, g)
    ensures Best(v, f) <= Best(v, g)
  {
    forall t | t in f
      ensures Least(v, t) <= Best(v, g)
    {
      var u :| u in g && Within(u, t);
      LeastWithin(v, t, u);
      BestAtLeast(v, g, u);
    }
    BestAtMost(v, f, Best(v, g));
  }

  /** Just the symbols of a term hold. */
  function Chosen(t: Term): (v: Valuation) { s => if s in t then 2 else 0 }

  lemma ChosenHolds(t: Term)
    ensures Least(Chosen(t), t) == 2
  {
    LeastAtLeast(Chosen(t), t, 2);
  }

  lemma ChosenWithin(t: Term, u: Term)
    requires !Within(u, t)
    ensures Least(Chosen(t), u) == 0
  {
    var d :| d in u && d !in t;
    Bounds(Chosen(t), u, d);
  }

  /** A term of f that has none of g in it tells the two apart. */
  lemma NotHad(f: Form, g: Form, t: Term)
    requires t in f && !Has(g, t)
    ensures Best(Chosen(t), f) == 2 && Best(Chosen(t), g) == 0
  {
    ChosenHolds(t);
    BestAtLeast(Chosen(t), f, t);
    forall u | u in g
      ensures Least(Chosen(t), u) <= 0
    {
      ChosenWithin(t, u);
    }
    BestAtMost(Chosen(t), g, 0);
  }

  // ---------------------------------------------------------------- building forms

  /** A form under a further term. */
  function Under(t: Term, f: Form): (r: Form) {
    if f == [] then [] else Under(t, f[..|f| - 1]) + [t + f[|f| - 1]]
  }

  /** Both forms. */
  function Both(f: Form, g: Form): (r: Form) {
    if f == [] then [] else Both(f[..|f| - 1], g) + Under(f[|f| - 1], g)
  }

  /** The forms of single texts as alternatives. */
  function Any(form: string -> Form, ls: seq<string>): (r: Form) {
    if ls == [] then [] else Any(form, ls[..|ls| - 1]) + form(ls[|ls| - 1])
  }

  /** The forms of single texts, all of which must hold. */
  function All(form: string -> Form, ls: seq<string>): (r: Form) {
    if ls == [] then [[]] else Both(All(form, ls[..|ls| - 1]), form(ls[|ls| - 1]))
  }

  lemma {:induction false} BestConcat(v: Valuation, f: Form, g: Form)
    ensures Best(v, f + g) == Max(Best(v, f), Best(v, g))
  {
    if g == [] {
      assert f + g == f;
    } else {
      assert (f + g)[..|f + g| - 1] == f + g[..|g| - 1];
      BestConcat(v, f, g[..|g| - 1]);
    }
  }

  lemma {:induction false} LeastConcat(v: Valuation, t: Term, u: Term)
    ensures Least(v, t + u) == Min(Least(v, t), Least(v, u))
  {
    if u == [] {
      assert t + u == t;
    } else {
      assert (t + u)[..|t + u| - 1] == t + u[..|u| - 1];
      LeastConcat(v, t, u[..|u| - 1]);
    }
  }

  lemma BestOne(v: Valuation, t: Term)
    ensures Best(v, [t]) == Least(v, t)
  {
    var none: Form := [];
    assert [t][..0] == none;
  }

  lemma {:induction false} UnderValue(v: Valuation, t: Term, f: Form)
    ensures Best(v, Under(t, f)) == Min(Least(v, t), Best(v, f))
  {
    if f != [] {
      var front, u := f[..|f| - 1], f[|f| - 1];
      UnderValue(v, t, front);
      LeastConcat(v, t, u);
      BestConcat(v, Under(t, front), [t + u]);
      BestOne(v, t + u);
    }
  }

  lemma {:induction false} BothValue(v: Valuation, f: Form, g: Form)
    ensures Best(v, Both(f, g)) == Min(Best(v, f), Best(v, g))
  {
    if f != [] {
      var front, t := f[..|f| - 1], f[|f| - 1];
      BothValue(v, front, g);
      UnderValue(v, t, g);
      BestConcat(v, Both(front, g), Under(t, g));
    }
  }

  lemma {:induction false} AnyValue(v: Valuation, m: Valuation, form: string -> Form, ls: seq<string>)
    requires forall ln | ln in ls :: m(ln) == Best(v, form(ln))
    ensures Greatest(m, ls) == Best(v, Any(form, ls))
  {
    if ls != [] {
      var front, ln := ls[..|ls| - 1], ls[|ls| - 1];
      assert ln in ls;
      AnyValue(v, m, form, front);
      BestConcat(v, Any(form, front), form(ln));
    }
  }

  lemma {:induction false} AllValue(v: Valuation, m: Valuation, form: string -> Form, ls: seq<string>)
    requires forall ln | ln in ls :: m(ln) == Best(v, form(ln))
    ensures Least(m, ls) == Best(v, All(form, ls))
  {
    if ls == [] {
      BestOne(v, []);
    } else {
      var front, ln := ls[..|ls| - 1], ls[|ls| - 1];
      assert ln in ls;
      AllValue(v, m, form, front);
      BothValue(v, All(form, front), form(ln));
    }
  }

  // ---------------------------------------------------------------- the terms of built forms

  lemma {:induction false} InUnder(t: Term, f: Form, s: Term)
    ensures s in Under(t, f) <==> exists u | u in f :: s == t + u
  {
    if f != [] {
      var front, u := f[..|f| - 1], f[|f| - 1];
      InUnder(t, front, s);
      assert f == front + [u];
    }
  }

  lemma {:induction false} InBoth(f: Form, g: Form, s: Term)
    ensures s in Both(f, g) <==> exists t, u | t in f && u in g :: s == t + u
  {
    if f != [] {
      var front, t := f[..|f| - 1], f[|f| - 1];
      InBoth(front, g, s);
      InUnder(t, g, s);
      assert f == front + [t];
    }
  }

  lemma {:induction false} InAny(form: string -> Form, ls: seq<string>, s: Term)
    ensures s in Any(form, ls) <==> exists ln | ln in ls :: s in form(ln)
  {
    if ls != [] {
      var front, ln := ls[..|ls| - 1], ls[|ls| - 1];
      InAny(form, front, s);
      assert ls == front + [ln];
    }
  }

  lemma WithinTerm(t: Term, u: Term, s: Term)
    requires Within(t, u) && Within(u, s)
    ensures Within(t, s)
  {
  }

  /** A term of both forms has one of either in it. */
  lemma BothHas(f: Form, g: Form, s: Term) returns (t: Term, u: Term)
    requires s in Both(f, g)
    ensures t in f && u in g && s == t + u && Within(t, s) && Within(u, s)
  {
    InBoth(f, g, s);
    t, u :| t in f && u in g && s == t + u;
  }

  /** Every way in which all texts hold has in it a way in which each does. */
  lemma {:induction false} AllHasEach(form: string -> Form, ls: seq<string>, ln: string, s: Term)
    requires ln in ls && s in All(form, ls)
    ensures Has(form(ln), s)
  {
    var front, last := ls[..|ls| - 1], ls[|ls| - 1];
    var t, u := BothHas(All(form, front), form(last), s);
    if ln == last {
      assert Within(u, s);
    } else {
      AllHasEach(form, front, ln, t);
      var w :| w in form(ln) && Within(w, t);
      assert Within(w, s);
    }
  }

  lemma AllOfOne(form: string -> Form, ln: string)
    ensures forall s :: s in All(form, [ln]) <==> s in form(ln)
  {
    var none: seq<string> := [];
    assert [ln][..0] == none && All(form, none) == [[]];
    forall s
      ensures s in All(form, [ln]) <==> s in form(ln)
    {
      var empty: Term := [];
      InBoth([empty], form(ln), s);
      assert empty in [empty] && empty + s == s;
      assert forall u: Term :: empty + u == u;
    }
  }

  /** Texts that are one term each, which is the text itself. */
  lemma {:induction false} AllOfSymbols(form: string -> Form, ls: seq<string>)
    requires forall ln | ln in ls :: form(ln) == [[ln]]
    ensures All(form, ls) == [ls]
  {
    if ls != [] {
      var front, ln := ls[..|ls| - 1], ls[|ls| - 1];
      assert ln in ls && front + [ln] == ls;
      AllOfSymbols(form, front);
      OneAndOne(front, [ln]);
    }
  }

  lemma OneAndOne(t: Term, u: Term)
    ensures Both([t], [u]) == [t + u]
  {
    var none: Form := [];
    assert [t][..0] == none && [u][..0] == none;
    assert Under(t, [u]) == Under(t, none) + [t + u];
    assert Both([t], [u]) == Both(none, [u]) + Under(t, [u]);
  }
}
