/**
  The journal component's state and the operations that change it: the live PnL effect on
  the entry form, saving the form as a new entry, deleting entries by id, and setting the
  initial balance. Storage, the clock and the confirmation dialog are parameters.
*/
module TradingJournal {
  import opened Wrappers
  import opened TradeMath
  import opened Decimal
  import opened Records
  import opened PortfolioStats

  /** Entry price, exit price and size all parse as numbers. */
  predicate InputsParse(f: Trade) {
    f.entryPrice.value.Some? && f.exitPrice.value.Some? && f.positionSize.value.Some?
  }

  /** The unrounded PnL of the form's inputs. */
  function FormPnL(f: Trade): real
    requires InputsParse(f)
  {
    PnL(f.direction, f.entryPrice.value.value, f.exitPrice.value.value, f.positionSize.value.value)
  }

  /** A PnL as the form stores it: the text `x.toFixed(2)` together with what that text reads as. */
  function Fixed(x: real): (n: NumText)
    ensures n.value == Some(Round2(x))
    ensures n.text == FixedText(x)
  {
    FixedTextValue(x);
    NumText(FixedText(x), DecimalValue(FixedText(x)))
  }

  /**
    The form after the PnL effect has run: the stored PnL is replaced by the rounded PnL of the
    inputs when all three parse, and otherwise keeps whatever it held; nothing else changes.
  */
  function Recalculated(f: Trade): (g: Trade)
    ensures g == f.(calculatedPnL := g.calculatedPnL)
    ensures InputsParse(f) ==> g.calculatedPnL.value == Some(Round2(FormPnL(f)))
    ensures InputsParse(f) ==> DecimalValue(g.calculatedPnL.text) == g.calculatedPnL.value
    ensures InputsParse(f) ==> g.calculatedPnL.text == FixedText(FormPnL(f))
    ensures !InputsParse(f) ==> g == f
  {
    if InputsParse(f) then f.(calculatedPnL := Fixed(FormPnL(f))) else f
  }

  /** Running the effect a second time changes nothing: it does not depend on the PnL it writes. */
  lemma RecalculatedIdempotent(f: Trade)
    ensures Recalculated(Recalculated(f)) == Recalculated(f)
  {
  }

  /**
    Clearing the exit price after a PnL was computed leaves that PnL in the form: the stored PnL
    no longer follows from the inputs. When the exit text is emptied on a Pending trade, the
    trade then saves as Pending while still carrying that PnL.
  */
  lemma ClearedExitKeepsStalePnL(f: Trade, cleared: NumText)
    requires InputsParse(f) && cleared.value.None?
    ensures var g := Recalculated(f).(exitPrice := cleared);
      Recalculated(g) == g && g.calculatedPnL.value == Some(Round2(FormPnL(f))) && !InputsParse(g)
    ensures var g := Recalculated(f).(exitPrice := cleared);
      cleared.text == "" && f.result == Pending ==> FinalResult(Recalculated(g)) == Pending
  {
  }

  /** The result a form is saved with. A Pending form with a non-empty exit price is settled by its stored PnL. */
  function FinalResult(f: Trade): (r: Result)
    ensures r == Pending <==> f.result == Pending && f.exitPrice.text == ""
    ensures f.result != Pending ==> r == f.result
  {
    Settle(f.result, f.exitPrice.text != "", f.calculatedPnL.value)
  }

  /** The entry a form becomes when saved under `id`. */
  function Finalized(f: Trade, id: string): (e: Trade)
    ensures e == f.(result := e.result, id := id)
  {
    f.(result := FinalResult(f), id := id)
  }

  /**
    A Pending form whose inputs all parse, once the effect has run, is saved as Win from half a
    cent of profit up, as Loss from half a cent of loss down, and as BE in between.
  */
  lemma SavedResultOfRecalculated(f: Trade)
    requires InputsParse(f) && f.result == Pending && f.exitPrice.text != ""
    ensures FinalResult(Recalculated(f)) == Win <==> FormPnL(f) >= 0.005
    ensures FinalResult(Recalculated(f)) == Loss <==> FormPnL(f) <= -0.005
    ensures FinalResult(Recalculated(f)) == BE <==> -0.005 < FormPnL(f) < 0.005
  {
    SettleRounded(FormPnL(f));
  }

  /** The entries whose id differs from `id`, in their original order. */
  function Without(es: seq<Trade>, id: string): (r: seq<Trade>)
    ensures |r| <= |es|
    ensures forall i :: 0 <= i < |r| ==> r[i].id != id
    ensures forall t :: t in r ==> t in es
  {
    if es == [] then []
    else (if es[0].id != id then [es[0]] else []) + Without(es[1..], id)
  }

  /** The entries whose id is `id`, in their original order. */
  function Matching(es: seq<Trade>, id: string): (r: seq<Trade>)
    ensures forall i :: 0 <= i < |r| ==> r[i].id == id
  {
    if es == [] then []
    else (if es[0].id == id then [es[0]] else []) + Matching(es[1..], id)
  }

  /** `a` is `b` with some elements left out and the rest in the same order. */
  predicate SubsequenceOf(a: seq<Trade>, b: seq<Trade>)
    decreases |b|
  {
    if a == [] then true
    else if b == [] then false
    else if a[0] == b[0] then SubsequenceOf(a[1..], b[1..])
    else SubsequenceOf(a, b[1..])
  }

  lemma {:induction false} SubsequenceSkip(a: seq<Trade>, b: seq<Trade>, t: Trade)
    requires SubsequenceOf(a, b)
    ensures SubsequenceOf(a, [t] + b)
    decreases |b|, 1
  {
    if a != [] && a[0] != t {
      assert ([t] + b)[1..] == b;
    } else if a != [] {
      assert ([t] + b)[1..] == b;
      SubsequenceDrop(a, b);
    }
  }

  lemma {:induction false} SubsequenceDrop(a: seq<Trade>, b: seq<Trade>)
    requires a != [] && SubsequenceOf(a, b)
    ensures SubsequenceOf(a[1..], b)
    decreases |b|, 0
  {
    if b != [] {
      if a[0] == b[0] {
        SubsequenceSkip(a[1..], b[1..], b[0]);
        assert [b[0]] + b[1..] == b;
      } else {
        SubsequenceDrop(a, b[1..]);
        SubsequenceSkip(a[1..], b[1..], b[0]);
        assert [b[0]] + b[1..] == b;
      }
    }
  }

  /**
    Deleting by id leaves no entry with that id, keeps every other entry as often as it was
    there and in its original relative order, and removes exactly the entries with that id.
  */
  lemma {:induction false} WithoutSpec(es: seq<Trade>, id: string)
    ensures SubsequenceOf(Without(es, id), es)
    ensures forall t: Trade :: t.id != id ==> multiset(Without(es, id))[t] == multiset(es)[t]
    ensures |Without(es, id)| + |Matching(es, id)| == |es|
  {
    if es == [] {
    } else {
      var rest := Without(es[1..], id);
      WithoutSpec(es[1..], id);
      assert es == [es[0]] + es[1..];
      if es[0].id != id {
        assert Without(es, id) == [es[0]] + rest;
        assert Without(es, id)[1..] == rest;
      } else {
        assert Without(es, id) == rest;
        SubsequenceSkip(rest, es[1..], es[0]);
      }
    }
  }

  /** Deleting an id no entry carries changes nothing. */
  lemma {:induction false} WithoutAbsent(es: seq<Trade>, id: string)
    requires forall i :: 0 <= i < |es| ==> es[i].id != id
    ensures Without(es, id) == es
  {
    if es != [] {
      WithoutAbsent(es[1..], id);
      assert [es[0]] + es[1..] == es;
    }
  }

  /** Deleting the id of an entry just saved, when no older entry shares it, restores the list as it was before the save. */
  lemma DeleteUndoesSubmit(f: Trade, id: string, es: seq<Trade>)
    requires forall i :: 0 <= i < |es| ==> es[i].id != id
    ensures Without([Finalized(f, id)] + es, id) == es
  {
    WithoutAbsent(es, id);
    assert ([Finalized(f, id)] + es)[1..] == es;
  }

  /** Net PnL after a delete is the old net PnL less the PnL of the entries deleted. */
  lemma {:induction false} TotalPnLWithout(es: seq<Trade>, id: string)
    ensures TotalPnL(es) == Add(TotalPnL(Without(es, id)), TotalPnL(Matching(es, id)))
  {
    if es == [] {
    } else {
      var t := es[0];
      assert es == [t] + es[1..];
      TotalPnLWithout(es[1..], id);
      TotalPnLPrepend(t, es[1..]);
      var w, m := Without(es[1..], id), Matching(es[1..], id);
      AddShuffle(EntryPnL(t), TotalPnL(w), TotalPnL(m));
      if t.id != id {
        assert Without(es, id) == [t] + w;
        assert Matching(es, id) == m;
        TotalPnLPrepend(t, w);
      } else {
        assert Matching(es, id) == [t] + m;
        assert Without(es, id) == w;
        TotalPnLPrepend(t, m);
      }
    }
  }

  /** A saved entry adds its stored PnL to the net PnL and one win exactly when it was saved as Win. */
  lemma SubmitStats(f: Trade, id: string, es: seq<Trade>)
    ensures TotalPnL([Finalized(f, id)] + es) == Add(EntryPnL(f), TotalPnL(es))
    ensures WinCount([Finalized(f, id)] + es) == WinCount(es) + (if FinalResult(f) == Win then 1 else 0)
  {
    TotalPnLPrepend(Finalized(f, id), es);
    WinCountAppend([Finalized(f, id)], es);
    assert [Finalized(f, id)][..0] == [];
  }

  /** The journal component's state. */
  class Journal {
    var entries: seq<Trade>
    var initialBalance: Option<real>
    var form: Trade

    /**
      The state on load: the entries stored before (none when nothing was stored), the stored
      balance when its text is non-empty and 1000 otherwise, and a blank form dated `today`.
    */
    constructor (savedEntries: Option<seq<Trade>>, savedBalance: NumText, today: string)
      ensures entries == savedEntries.GetOr([])
      ensures initialBalance == if savedBalance.text != "" then savedBalance.value else Some(1000.0)
      ensures form == BlankForm(today)
    {
      entries := savedEntries.GetOr([]);
      initialBalance := if savedBalance.text != "" then savedBalance.value else Some(1000.0);
      form := BlankForm(today);
    }

    /** The PnL effect, run after the entry price, exit price, size or direction changed. */
    method RecalcPnL()
      modifies this
      ensures form == Recalculated(old(form))
      ensures entries == old(entries) && initialBalance == old(initialBalance)
    {
      var entry, exit, size := form.entryPrice.value, form.exitPrice.value, form.positionSize.value;
      if entry.Some? && exit.Some? && size.Some? {
        var pnl := 0.0;
        if form.direction == Long {
          pnl := (exit.value - entry.value) * size.value;
        } else {
          pnl := (entry.value - exit.value) * size.value;
        }
        assert pnl == FormPnL(form);
        form := form.(calculatedPnL := Fixed(pnl));
      }
    }

    /**
      Saving the form: the form, with its result settled and id `id`, goes in front of the
      entries, which are otherwise unchanged; the form is reset to a blank one dated `today`.
    */
    method Submit(id: string, today: string)
      modifies this
      ensures entries == [Finalized(old(form), id)] + old(entries)
      ensures |entries| == |old(entries)| + 1 && entries[1..] == old(entries)
      ensures entries[0].id == id && entries[0].result == FinalResult(old(form))
      ensures form == BlankForm(today) && initialBalance == old(initialBalance)
    {
      var finalResult := form.result;
      if form.result == Pending && form.exitPrice.text != "" {
        var pnl := form.calculatedPnL.value;
        if pnl.Some? && pnl.value > 0.0 {
          finalResult := Win;
        } else if pnl.Some? && pnl.value < 0.0 {
          finalResult := Loss;
        } else {
          finalResult := BE;
        }
      }
      var newEntry := form.(result := finalResult, id := id);
      entries := [newEntry] + entries;
      form := BlankForm(today);
    }

    /** Deleting the entries with id `id`, once the user has confirmed. */
    method Delete(id: string, confirmed: bool)
      modifies this
      ensures entries == if confirmed then Without(old(entries), id) else old(entries)
      ensures |entries| <= |old(entries)|
      ensures form == old(form) && initialBalance == old(initialBalance)
    {
      if confirmed {
        entries := Without(entries, id);
      }
    }

    /** Saving the edited balance; `parsed` is what parseFloat makes of the text typed. */
    method SaveBalance(parsed: Option<real>)
      modifies this
      ensures initialBalance == parsed
      ensures entries == old(entries) && form == old(form)
    {
      initialBalance := parsed;
    }
  }
}
