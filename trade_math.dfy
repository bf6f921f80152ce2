/**
  The arithmetic of a single trade: its profit or loss by direction, the rounding to
  whole cents that the journal applies before storing it, and the settlement of a
  pending trade into Win, Loss or BE.
*/
module TradeMath {
  import opened Wrappers

  datatype Direction = Long | Short

  /** The state a trade is recorded in; `BE` is break-even. */
  datatype Result = Pending | Win | Loss | BE

  /** True when moving from `entry` to `exit` makes money for a position in direction `d`. */
  predicate Favourable(d: Direction, entry: real, exit: real) {
    match d
    case Long => exit > entry
    case Short => exit < entry
  }

  /** Profit or loss of `size` units opened at `entry` and closed at `exit`. */
  function PnL(d: Direction, entry: real, exit: real, size: real): (r: real)
    ensures exit == entry || size == 0.0 ==> r == 0.0
  {
    match d
    case Long => (exit - entry) * size
    case Short => (entry - exit) * size
  }

  lemma LongIsNegatedShort(entry: real, exit: real, size: real)
    ensures PnL(Long, entry, exit, size) == -PnL(Short, entry, exit, size)
  {
  }

  lemma ProductSign(a: real, s: real)
    requires s > 0.0
    ensures a * s > 0.0 <==> a > 0.0
    ensures a * s < 0.0 <==> a < 0.0
  {
    if a > 0.0 {
      assert a * s > 0.0 * s;
    } else if a < 0.0 {
      assert a * s < 0.0 * s;
    }
  }

  /** For a positive size the trade gains exactly when the price moved its way, and loses exactly when it moved against it. */
  lemma PnLSign(d: Direction, entry: real, exit: real, size: real)
    requires size > 0.0
    ensures PnL(d, entry, exit, size) > 0.0 <==> Favourable(d, entry, exit)
    ensures PnL(d, entry, exit, size) < 0.0 <==> Favourable(d, exit, entry)
    ensures PnL(d, entry, exit, size) == 0.0 <==> entry == exit
  {
    var move := if d == Long then exit - entry else entry - exit;
    assert PnL(d, entry, exit, size) == move * size;
    assert Favourable(d, entry, exit) <==> move > 0.0;
    assert Favourable(d, exit, entry) <==> move < 0.0;
    ProductSign(move, size);
  }

  /**
    The magnitude of `x` in whole cents, rounded as `toFixed(2)` rounds: the sign is set
    aside, and of two equally near cent counts the larger is taken.
  */
  function Cents(x: real): (c: nat)
    ensures var a := if x < 0.0 then -x else x;
      a * 100.0 - 0.5 < c as real <= a * 100.0 + 0.5
  {
    var a := if x < 0.0 then -x else x;
    (a * 100.0 + 0.5).Floor
  }

  /** `x` rounded to two decimals, halves away from zero: the number that `x.toFixed(2)` denotes. */
  function Round2(x: real): (r: real)
    ensures r < 0.0 ==> x < 0.0
    ensures x >= 0.0 ==> r >= 0.0
  {
    (if x < 0.0 then -1.0 else 1.0) * (Cents(x) as real) / 100.0
  }

  /** Rounding never moves a value by more than half a cent. */
  lemma Round2Error(x: real)
    ensures -0.005 <= Round2(x) - x <= 0.005
  {
    var c := Cents(x) as real;
    if x < 0.0 {
      assert Round2(x) == -c / 100.0;
    } else {
      assert Round2(x) == c / 100.0;
    }
  }

  /** The rounded value is positive from half a cent up and negative from half a cent down; in between it is zero. */
  lemma Round2Sign(x: real)
    ensures Round2(x) > 0.0 <==> x >= 0.005
    ensures Round2(x) < 0.0 <==> x <= -0.005
  {
    var c := Cents(x);
    if x < 0.0 {
      assert Round2(x) == -(c as real) / 100.0;
      assert c >= 1 <==> -x >= 0.005;
    } else {
      assert Round2(x) == (c as real) / 100.0;
      assert c >= 1 <==> x >= 0.005;
    }
  }

  /**
    Settlement of a trade at save time: a Pending trade that has an exit price becomes Win,
    Loss or BE by the sign of its stored PnL (`None`, a value that is not a number, compares
    neither above nor below zero); any other result is kept.
  */
  function Settle(current: Result, hasExit: bool, pnl: Option<real>): (r: Result)
    ensures current != Pending || !hasExit ==> r == current
    ensures current == Pending && hasExit ==> r != Pending
  {
    if current == Pending && hasExit then
      if pnl.Some? && pnl.value > 0.0 then Win
      else if pnl.Some? && pnl.value < 0.0 then Loss
      else BE
    else current
  }

  /** Each settled outcome, in both directions, in terms of the stored PnL. */
  lemma SettleCases(current: Result, hasExit: bool, pnl: Option<real>)
    ensures Settle(current, hasExit, pnl) == Win <==>
      (current == Win || (current == Pending && hasExit && pnl.Some? && pnl.value > 0.0))
    ensures Settle(current, hasExit, pnl) == Loss <==>
      (current == Loss || (current == Pending && hasExit && pnl.Some? && pnl.value < 0.0))
    ensures Settle(current, hasExit, pnl) == BE <==>
      (current == BE || (current == Pending && hasExit && (pnl.None? || pnl.value == 0.0)))
    ensures Settle(current, hasExit, pnl) == Pending <==> (current == Pending && !hasExit)
  {
  }

  /**
    A trade whose stored PnL is its rounded PnL settles by half a cent: Win from half a cent
    of profit up, Loss from half a cent of loss down, BE in between.
  */
  lemma SettleRounded(x: real)
    ensures Settle(Pending, true, Some(Round2(x))) == Win <==> x >= 0.005
    ensures Settle(Pending, true, Some(Round2(x))) == Loss <==> x <= -0.005
    ensures Settle(Pending, true, Some(Round2(x))) == BE <==> -0.005 < x < 0.005
  {
    Round2Sign(x);
  }

  /** Three worked examples: a Long from 100 to 110 of size 2 is a Win of 20, to 90 a Loss of 20, and flat a BE. */
  lemma SettleExamples()
    ensures Round2(PnL(Long, 100.0, 110.0, 2.0)) == 20.0
    ensures Settle(Pending, true, Some(Round2(PnL(Long, 100.0, 110.0, 2.0)))) == Win
    ensures Round2(PnL(Long, 100.0, 90.0, 2.0)) == -20.0
    ensures Settle(Pending, true, Some(Round2(PnL(Long, 100.0, 90.0, 2.0)))) == Loss
    ensures Round2(PnL(Long, 100.0, 100.0, 5.0)) == 0.0
    ensures Settle(Pending, true, Some(Round2(PnL(Long, 100.0, 100.0, 5.0)))) == BE
    ensures Settle(Pending, false, Some(Round2(PnL(Long, 100.0, 110.0, 2.0)))) == Pending
  {
    assert Cents(20.0) == 2000;
    assert Cents(-20.0) == 2000;
    assert Cents(0.0) == 0;
  }
}
