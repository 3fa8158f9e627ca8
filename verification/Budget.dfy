/** The interpreter's cycle budget: it is tested only between blocks, that is, at jumps and page ends. */
module Budget {
  import Sticky

  /** What an instruction does to the flow of control. */
  datatype Outcome =
    | Next2
    | Next4
    | Jump(target: nat)
    | Raise
    | Leave

  /** What the machine meets in one turn of the loop. Targets are offsets in a page. */
  datatype Turn = Turn(interrupt: bool, fetchFails: bool, outcome: Outcome)

  predicate Aligned(t: Turn) { t.outcome.Jump? ==> t.outcome.target % 2 == 0 && t.outcome.target < 4096 }

  function Wrap(x: int): (w: nat)
    ensures w < 0x1_0000_0000_0000_0000
  {
    x % 0x1_0000_0000_0000_0000
  }

  predicate Flows(o: Outcome) { !o.Raise? && !o.Leave? }

  /** Why a run ends after `ran` instructions: the last one raised or left, the budget `n` is used up, or an
      interrupt or a failed fetch came before the next one. */
  predicate Ended(turns: nat -> Turn, ran: nat, trapped: bool, n: int)
  {
    (forall k :: 0 <= k < ran - 1 ==> Flows(turns(k).outcome)) &&
    if ran > 0 && !Flows(turns(ran - 1).outcome) then trapped == turns(ran - 1).outcome.Raise?
    else if trapped then turns(ran).interrupt || turns(ran).fetchFails
    else n <= 0
  }

  /** One call of the interpreter, starting at page offset `pc`. However the program runs, a call with a budget
      counts at least one cycle and fewer than 2048 too many: one for each instruction and one for a trap. */
  method Interp(budget: nat, counter0: nat, pc: nat, turns: nat -> Turn)
    returns (counter: nat, counted: nat, ran: nat, trapped: bool)
    requires pc % 2 == 0 && pc < 4096 && counter0 < 0x1_0000_0000_0000_0000 && forall i: nat :: Aligned(turns(i))
    ensures counter == Wrap(counter0 + counted)
    ensures budget == 0 ==> counted == 0
    ensures budget > 0 ==> 1 <= counted < budget + 2048
    ensures counted == ran + if trapped then 1 else 0
    ensures budget > 0 ==> Ended(turns, ran, trapped, budget - counted)
  {
    if budget == 0 {
      Small(counter0);
      return counter0, 0, 0, false;
    }
    var addend := Wrap(counter0 + budget);
    var n: int := budget;
    if turns(0).interrupt {
      n, ran, trapped := n - 1, 0, true;
    } else {
      n, ran, trapped := Blocks(budget, pc, turns);
    }
    counted := budget - n;
    counter := Wrap(addend - n);
    WrapBack(counter0 + budget, n);
  }

  /** The main loop; returns the cycles left. `code` and `end` are offsets in the current page; when they meet,
      a new block is looked up. */
  method Blocks(budget: nat, pc0: nat, turns: nat -> Turn) returns (n: int, ran: nat, trapped: bool)
    requires budget > 0 && pc0 % 2 == 0 && pc0 < 4096 && forall i: nat :: Aligned(turns(i))
    ensures -2048 < n < budget && n == budget - ran - if trapped then 1 else 0
    ensures Ended(turns, ran, trapped, n)
  {
    n, trapped := budget, false;
    var pc, code, end, i := pc0, 0, 0, 0;
    while true
      invariant pc % 2 == 0 && 0 <= pc < 4096 && code % 2 == 0 && 0 <= code
      invariant -2048 < n <= budget && (n == budget ==> code >= end)
      invariant n == budget - i && !trapped && forall k :: 0 <= k < i ==> Flows(turns(k).outcome)
      invariant code < end ==> end == 4094 && 2 * n + code >= 2
      decreases n + 4096, code < end
    {
      if code >= end {
        if n <= 0 {
          break;
        }
        if turns(i).interrupt || turns(i).fetchFails {
          n, trapped := n - 1, true;
          break;
        }
        code, end := pc, 4094;
      }
      n := n - 1;
      var o := turns(i).outcome;
      assert Aligned(turns(i));
      i := i + 1;
      match o {
        case Next2 => code := code + 2;
        case Next4 => code := code + 4;
        case Jump(target) => pc, code, end := target, 0, 0;
        case Raise =>
          n, trapped := n - 1, true;
          break;
        case Leave =>
          break;
      }
      if !o.Jump? && code >= end {
        pc := if code >= 4096 then code - 4096 else code;
      }
    }
    ran := i;
  }

  lemma Small(x: nat)
    requires x < 0x1_0000_0000_0000_0000
    ensures Wrap(x + 0) == x
  {
  }

  lemma WrapBack(x: int, n: int)
    ensures Wrap(Wrap(x) - n) == Wrap(x - n)
  {
    var m := 0x1_0000_0000_0000_0000;
    Sticky.DivModIs(x, 0x1_0000_0000_0000_0000);
    Sticky.DivModIs(x - n, 0x1_0000_0000_0000_0000);
    Sticky.DivModUnique(Wrap(x) - n, 0x1_0000_0000_0000_0000, (x - n) / m - x / m, Wrap(x - n));
  }

  lemma WrapOn(x: int, k: int)
    ensures Wrap(Wrap(x) + k) == Wrap(x + k)
  {
    WrapBack(x, -k);
  }

  // ---- the outer loop ----

  /** The low 32 bits as a signed number. */
  function Signed32(w: nat): int
  {
    var x := w % 0x1_0000_0000;
    if x < 0x8000_0000 then x else x - 0x1_0000_0000
  }

  /** A small difference survives the wrap-around and the narrowing. */
  lemma SmallDifference(d: int)
    requires -0x8000_0000 <= d < 0x8000_0000
    ensures Signed32(Wrap(d)) == d
  {
    if d >= 0 {
      Sticky.DivModUnique(d, 0x1_0000_0000_0000_0000, 0, d);
      Sticky.DivModUnique(d, 0x1_0000_0000, 0, d);
    } else {
      Sticky.DivModUnique(d, 0x1_0000_0000_0000_0000, -1, d + 0x1_0000_0000_0000_0000);
      Sticky.DivModUnique(d + 0x1_0000_0000_0000_0000, 0x1_0000_0000, 0xFFFF_FFFF, d + 0x1_0000_0000);
    }
  }

  lemma Remaining(x: int, n: int, total: int)
    ensures Wrap(Wrap(x + n) - Wrap(x + total)) == Wrap(n - total)
  {
    WrapBack(x + n, Wrap(x + total));
    var m := 0x1_0000_0000_0000_0000;
    Sticky.DivModIs(x + total, 0x1_0000_0000_0000_0000);
    var k := (x + total) / m;
    Sticky.DivModIs(n - total, 0x1_0000_0000_0000_0000);
    Sticky.DivModUnique(x + n - Wrap(x + total), 0x1_0000_0000_0000_0000, (n - total) / m + k, Wrap(n - total));
  }

  datatype Call = Call(powerDown: bool, pc: nat, turns: nat -> Turn)

  ghost predicate ProperCall(c: Call) { c.pc % 2 == 0 && c.pc < 4096 && forall i: nat :: Aligned(c.turns(i)) }

  /** Runs the interpreter until the budget is used up or the machine powers down. It stops, and uses the budget
      up, with fewer than 2048 cycles too many, after `made` calls of the interpreter: the machine had powered down
      after them exactly if that is why it stops, and after none before. */
  method Run(n: nat, counter0: nat, calls: nat -> Call) returns (counter: nat, total: nat, made: nat, poweredDown: bool)
    requires n < 0x8000_0000 && counter0 < 0x1_0000_0000_0000_0000 && forall k: nat :: ProperCall(calls(k))
    ensures counter == Wrap(counter0 + total) && total < n + 2048
    ensures !poweredDown ==> total >= n
    ensures (poweredDown <==> calls(made).powerDown) && forall k :: 0 <= k < made ==> !calls(k).powerDown
    ensures made <= total
  {
    hide Wrap, Signed32;
    var timeout := Wrap(counter0 + n);
    counter, total, made := counter0, 0, 0;
    Small(counter0);
    while true
      invariant counter == Wrap(counter0 + total) && counter < 0x1_0000_0000_0000_0000 && total < n + 2048
      invariant made <= total && forall k :: 0 <= k < made ==> !calls(k).powerDown
      decreases n + 2048 - total
    {
      var left := Signed32(Wrap(timeout - counter));
      Remaining(counter0, n, total);
      SmallDifference(n - total);
      if calls(made).powerDown || left <= 0 {
        poweredDown := calls(made).powerDown;
        return;
      }
      assert ProperCall(calls(made));
      var counted, ran, trapped;
      counter, counted, ran, trapped := Interp(left, counter, calls(made).pc, calls(made).turns);
      WrapOn(counter0 + total, counted);
      total := total + counted;
      made := made + 1;
    }
  }
}
