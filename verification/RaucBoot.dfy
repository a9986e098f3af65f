/** The RAUC boot script: attempts are spent before the slot they are spent on is booted. */
module RaucBoot {
  import opened Prelude
  import opened BootEnv

  /** BOOT_ORDER, BOOT_a_LEFT and BOOT_b_LEFT; `None` where the environment has nothing to say. */
  datatype Stored = Stored(order: Option<seq<Slot>>, left: PerSlot<Option<nat>>)

  /** The three variables once the script's defaults are in. */
  datatype Plan = Plan(order: seq<Slot>, left: PerSlot<nat>)

  function Or<T>(v: Option<T>, default: T): T {
    if v.Some? then v.value else default
  }

  /** Defaults of a device that was never updated; an empty order is an unset one. */
  function Defaulted(env: Stored): Plan {
    Plan(if env.order.Some? && env.order.value != [] then env.order.value else [A, B],
         PerSlot(Or(env.left.a, 3), Or(env.left.b, 3)))
  }

  function Save(p: Plan): Stored {
    Stored(Some(p.order), PerSlot(Some(p.left.a), Some(p.left.b)))
  }

  function Total(p: Plan): nat {
    p.left.a + p.left.b
  }

  /** `s` is the first slot of the order with attempts left. */
  predicate FirstWithAttempts(p: Plan, s: Slot) {
    exists i :: 0 <= i < |p.order| && p.order[i] == s && p.left.At(s) > 0
                && forall j :: 0 <= j < i ==> p.left.At(p.order[j]) == 0
  }

  predicate Spent(p: Plan) {
    forall s <- p.order :: p.left.At(s) == 0
  }

  /** A boot of `s`, as the script must leave the plan. */
  predicate Boots(p: Plan, s: Slot, q: Plan) {
    && q.order == p.order
    && (FirstWithAttempts(p, s) ==> q.left == p.left.With(s, p.left.At(s) - 1))
    && (Spent(p) ==> s == A && q.left == p.left.With(A, 1))
    && (FirstWithAttempts(p, s) || Spent(p))
  }

  lemma FirstOneBoots(p: Plan, i: nat)
    requires i < |p.order| && p.left.At(p.order[i]) > 0
    requires forall j :: 0 <= j < i ==> p.left.At(p.order[j]) == 0
    ensures var s := p.order[i]; Boots(p, s, p.(left := p.left.With(s, p.left.At(s) - 1)))
  {
    assert FirstWithAttempts(p, p.order[i]);
  }

  /** rauc-boot.cmd from its defaults to its saveenv. */
  class RaucUboot {
    var env: Stored

    constructor (stored: Stored)
      ensures env == stored
    {
      env := stored;
    }

    method RunScript() returns (slot: Slot, part: nat)
      modifies this
      ensures Boots(Defaulted(old(env)), slot, Defaulted(env))
      ensures env == Save(Defaulted(env))
      ensures part == if slot == A then 1 else 2
    {
      var order := if env.order.None? || env.order.value == [] then [A, B] else env.order.value;
      var aLeft: nat := if env.left.a.None? then 3 else env.left.a.value;
      var bLeft: nat := if env.left.b.None? then 3 else env.left.b.value;
      ghost var plan := Plan(order, PerSlot(aLeft, bLeft));

      var chosen: Option<Slot> := None;
      part := 1;
      for i := 0 to |order|
        invariant chosen.None? ==> aLeft == plan.left.a && bLeft == plan.left.b
        invariant chosen.None? ==> forall j :: 0 <= j < i ==> plan.left.At(order[j]) == 0
        invariant chosen.Some? ==> Boots(plan, chosen.value, Plan(order, PerSlot(aLeft, bLeft)))
        invariant chosen.Some? ==> part == if chosen.value == A then 1 else 2
      {
        if chosen.None? {
          if plan.left.At(order[i]) > 0 {
            FirstOneBoots(plan, i);
          }
          if order[i] == A {
            if aLeft > 0 {
              aLeft := aLeft - 1;
              chosen := Some(A);
              part := 1;
            }
          }
          if order[i] == B {
            if bLeft > 0 {
              bLeft := bLeft - 1;
              chosen := Some(B);
              part := 2;
            }
          }
        }
      }
      if chosen.None? {
        chosen := Some(A);
        part := 1;
        aLeft := 1;
      }
      env := Stored(Some(order), PerSlot(Some(aLeft), Some(bLeft)));
      slot := chosen.value;
    }
  }

  /** The script's result is determined by its input, and every plan has one. */
  lemma BootsIsAFunction(p: Plan, s: Slot, q: Plan, s': Slot, q': Plan)
    requires p.order != [] && Boots(p, s, q) && Boots(p, s', q')
    ensures s == s' && q == q'
  {
    if Spent(p) {
      assert p.order[0] in p.order;
    } else {
      var i :| 0 <= i < |p.order| && p.order[i] == s && p.left.At(s) > 0
               && forall j :: 0 <= j < i ==> p.left.At(p.order[j]) == 0;
      var k :| 0 <= k < |p.order| && p.order[k] == s' && p.left.At(s') > 0
               && forall j :: 0 <= j < k ==> p.left.At(p.order[j]) == 0;
    }
  }

  /** `slots` is what consecutive boots from `p` enter. */
  ghost predicate BootRun(p: Plan, slots: seq<Slot>)
    decreases |slots|
  {
    slots == [] || exists q :: Boots(p, slots[0], q) && BootRun(q, slots[1..])
  }

  /** A slot is always chosen, and one attempt in all is spent unless none was left. */
  lemma SomeSlotAlwaysBoots(p: Plan)
    ensures exists s, q :: Boots(p, s, q)
    ensures forall s, q :: Boots(p, s, q) && !Spent(p) ==> Total(q) == Total(p) - 1
  {
    if Spent(p) {
      assert Boots(p, A, p.(left := p.left.With(A, 1)));
    } else {
      var k := FirstIndex(p, 0);
      var s := p.order[k];
      assert FirstWithAttempts(p, s);
      assert Boots(p, s, p.(left := p.left.With(s, p.left.At(s) - 1)));
    }
  }

  lemma FirstIndex(p: Plan, i: nat) returns (k: nat)
    requires !Spent(p) && i <= |p.order|
    requires forall j :: 0 <= j < i ==> p.left.At(p.order[j]) == 0
    ensures k < |p.order| && p.left.At(p.order[k]) > 0
    ensures forall j :: 0 <= j < k ==> p.left.At(p.order[j]) == 0
    decreases |p.order| - i
  {
    if i == |p.order| {
      assert false;
    } else if p.left.At(p.order[i]) > 0 {
      k := i;
    } else {
      k := FirstIndex(p, i + 1);
    }
  }

  /** Which slot boot number `k` enters, for order `x y`: all of `x`'s attempts, all of `y`'s, then a forever. */
  function Scheduled(x: Slot, m: nat, n: nat, k: nat): Slot {
    if k < m then x else if k < m + n then x.Other() else A
  }

  function Counts(x: Slot, m: nat, n: nat): PerSlot<nat> {
    if x == A then PerSlot(m, n) else PerSlot(n, m)
  }

  /**
    With both slots named in the order and nothing marking or installing in between, the runs of
    boots are exactly the scheduled ones.
  */
  lemma {:induction false} AttemptSequence(x: Slot, m: nat, n: nat, slots: seq<Slot>)
    ensures BootRun(Plan([x, x.Other()], Counts(x, m, n)), slots)
            <==> forall k :: 0 <= k < |slots| ==> slots[k] == Scheduled(x, m, n, k)
    decreases |slots|
  {
    if slots != [] {
      var p := Plan([x, x.Other()], Counts(x, m, n));
      var first := Scheduled(x, m, n, 0);
      var m', n' := NextCounts(x, m, n);
      var q := Plan([x, x.Other()], Counts(x, m', n'));
      assert Boots(p, first, q);
      AttemptSequence(x, m', n', slots[1..]);
      assert forall k :: 0 < k < |slots| ==> slots[k] == slots[1..][k - 1];
      assert forall k :: 0 <= k < |slots| - 1 ==> slots[1..][k] == slots[k + 1];
      assert forall k :: 0 <= k ==> Scheduled(x, m', n', k) == Scheduled(x, m, n, k + 1);
      if BootRun(p, slots) {
        var q' :| Boots(p, slots[0], q') && BootRun(q', slots[1..]);
        BootsIsAFunction(p, slots[0], q', first, q);
      }
    }
  }

  /** One boot of an order that names both slots. */
  lemma NextCounts(x: Slot, m: nat, n: nat) returns (m': nat, n': nat)
    ensures Boots(Plan([x, x.Other()], Counts(x, m, n)), Scheduled(x, m, n, 0),
                  Plan([x, x.Other()], Counts(x, m', n')))
    ensures forall k: nat :: Scheduled(x, m', n', k) == Scheduled(x, m, n, k + 1)
  {
    var y := x.Other();
    var p := Plan([x, y], Counts(x, m, n));
    assert p.order[0] == x && p.order[1] == y;
    if m > 0 {
      m', n' := m - 1, n;
      assert FirstWithAttempts(p, x);
      assert !Spent(p);
    } else if n > 0 {
      m', n' := 0, n - 1;
      assert FirstWithAttempts(p, y);
      assert !Spent(p);
    } else if x == A {
      m', n' := 1, 0;
      assert Spent(p);
    } else {
      m', n' := 0, 1;
      assert Spent(p);
    }
  }

  /** A device that was never updated boots a three times, b three times, and a ever after. */
  lemma FreshDeviceSequence(slots: seq<Slot>)
    ensures BootRun(Defaulted(Stored(None, PerSlot(None, None))), slots)
            <==> forall k :: 0 <= k < |slots| ==> slots[k] == if k < 3 then A else if k < 6 then B else A
  {
    AttemptSequence(A, 3, 3, slots);
    assert forall k: nat :: Scheduled(A, 3, 3, k) == if k < 3 then A else if k < 6 then B else A;
  }

  /** Variables that are set count as they stand; an order without slots counts as none. */
  lemma SetVariablesStand(env: Stored)
    ensures var p := Defaulted(env);
            && (env.order.Some? && env.order.value != [] ==> p.order == env.order.value)
            && (env.order == None || env.order == Some([]) ==> p.order == [A, B])
            && (forall s: Slot :: p.left.At(s) == if env.left.At(s).Some? then env.left.At(s).value else 3)
  {
  }
}
