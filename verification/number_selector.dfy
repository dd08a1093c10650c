/** The number board of the lottery page: a selection of at most six
    distinct numbers from 1..49 that the player toggles one at a time, or
    replaces wholesale by "quick pick" or "throw lucky numbers".

    `Math.random` is not modelled as a source of randomness: every random
    draw the component would make is supplied by the caller, in order, as a
    whole number `Math.floor(Math.random() * k)` in [0, k). */
module NumberSelector {
  import opened Optional
  import opened SeqUtil

  /** How many numbers a ticket holds. */
  const PickCount := 6
  /** The board shows the numbers 1..MaxNumber. */
  const MaxNumber := 49

  const LuckyPrimes: seq<int> := [3, 7, 13, 19, 31, 37, 43]
  const ZodiacNumbers: seq<int> := [4, 8, 12, 16, 20, 24, 28, 32, 36, 40, 44, 48]

  predicate IsBall(n: int) {
    1 <= n <= MaxNumber
  }

  /** What the selection state always satisfies: duplicate-free, at most
      six numbers, every one of them on the board. */
  predicate ValidSelection(sel: seq<int>) {
    && NoDuplicates(sel)
    && |sel| <= PickCount
    && forall i :: 0 <= i < |sel| ==> IsBall(sel[i])
  }

  /** What a generated pick satisfies: exactly six board numbers in strictly
      ascending order (hence distinct). */
  predicate IsTicket(s: seq<int>) {
    && |s| == PickCount
    && StrictlyAscending(s)
    && forall i :: 0 <= i < |s| ==> IsBall(s[i])
  }

  /** Each draw is `Math.floor(Math.random() * 49)`. */
  predicate ValidDraws(draws: seq<int>) {
    forall i :: 0 <= i < |draws| ==> 0 <= draws[i] < MaxNumber
  }

  /** The board numbers the draws name (`draw + 1`). */
  function Balls(draws: seq<int>): set<int> {
    set d | d in draws :: d + 1
  }

  lemma BallsCons(draws: seq<int>)
    requires |draws| > 0
    ensures Balls(draws) == {draws[0] + 1} + Balls(draws[1..])
  {
    forall n ensures n in Balls(draws) <==> n == draws[0] + 1 || n in Balls(draws[1..]) {
      if n in Balls(draws) {
        var d :| d in draws && n == d + 1;
        var k :| 0 <= k < |draws| && draws[k] == d;
        if k > 0 {
          assert draws[1..][k - 1] == d;
          assert d in draws[1..];
          assert n in Balls(draws[1..]);
        }
      }
      if n == draws[0] + 1 {
        assert draws[0] in draws;
        assert n in Balls(draws);
      }
      if n in Balls(draws[1..]) {
        var d :| d in draws[1..] && n == d + 1;
        assert d in draws;
        assert n in Balls(draws);
      }
    }
  }

  lemma BallsOnBoard(draws: seq<int>)
    requires ValidDraws(draws)
    ensures forall n :: n in Balls(draws) ==> IsBall(n)
  {
  }

  lemma TicketIsValidSelection(s: seq<int>)
    requires IsTicket(s)
    ensures ValidSelection(s)
  {
  }

  // ---------------------------------------------------------------------
  // toggleNumber and the board buttons' `disabled` flag
  // ---------------------------------------------------------------------

  /** Clicking number `num`: a selected number is removed; an unselected one
      is appended while fewer than six are selected; otherwise nothing. */
  function ToggleNumber(sel: seq<int>, num: int): (r: seq<int>)
    ensures forall y :: y in r <==> if y == num then num !in sel && |sel| < PickCount else y in sel
  {
    if num in sel then Without(sel, num)
    else if |sel| < PickCount then sel + [num]
    else sel
  }

  /** A board button is disabled when six are selected and it is not one of them. */
  function ButtonDisabled(sel: seq<int>, num: int): (r: bool)
    ensures r ==> ToggleNumber(sel, num) == sel
  {
    |sel| >= PickCount && num !in sel
  }

  /** Removing a selected number cuts out exactly its position; the others
      keep their relative order. */
  lemma ToggleSelectedCutsOut(sel: seq<int>, i: nat)
    requires NoDuplicates(sel) && i < |sel|
    ensures ToggleNumber(sel, sel[i]) == sel[..i] + sel[i + 1..]
  {
    WithoutCutsOut(sel, i);
  }

  /** An unselected number goes to the end while there is room. */
  lemma ToggleUnselectedAppends(sel: seq<int>, num: int)
    requires num !in sel && |sel| < PickCount
    ensures ToggleNumber(sel, num) == sel + [num]
    ensures |ToggleNumber(sel, num)| == |sel| + 1
  {
  }

  /** A click leaves the selection as it was exactly when the clicked
      button is disabled. */
  lemma ToggleNoChangeIffDisabled(sel: seq<int>, num: int)
    ensures ToggleNumber(sel, num) == sel <==> ButtonDisabled(sel, num)
  {
  }

  lemma AppendFresh(sel: seq<int>, num: int)
    requires NoDuplicates(sel) && num !in sel
    ensures NoDuplicates(sel + [num])
  {
  }

  /** Toggling keeps the selection invariant. */
  lemma TogglePreservesValid(sel: seq<int>, num: int)
    requires ValidSelection(sel) && IsBall(num)
    ensures ValidSelection(ToggleNumber(sel, num))
  {
    var r := ToggleNumber(sel, num);
    if num !in sel && |sel| < PickCount {
      AppendFresh(sel, num);
      assert r == sel + [num];
      forall i | 0 <= i < |r| ensures IsBall(r[i]) {
        if i < |sel| {
          assert r[i] == sel[i];
        }
      }
    } else if num in sel {
      forall i | 0 <= i < |r| ensures IsBall(r[i]) {
        assert r[i] in sel;
      }
    }
  }

  /** Adding a number and clicking it again restores the selection. */
  lemma ToggleTwiceRestores(sel: seq<int>, num: int)
    requires num !in sel && |sel| < PickCount
    ensures ToggleNumber(ToggleNumber(sel, num), num) == sel
  {
    WithoutAppend(sel, num, num);
    assert sel + [] == sel;
  }

  // ---------------------------------------------------------------------
  // The rejection-sampling loops of quickPick and throwLuckyNumbers
  // ---------------------------------------------------------------------

  /** `numbers.add(n)` on an insertion-ordered JavaScript `Set`. */
  function AddToSet(acc: seq<int>, n: int): (r: seq<int>)
    ensures NoDuplicates(acc) ==> NoDuplicates(r)
    ensures Elements(r) == Elements(acc) + {n}
  {
    if n in acc then acc
    else
      assert NoDuplicates(acc) ==> NoDuplicates(acc + [n]) by {
        if NoDuplicates(acc) {
          AppendFresh(acc, n);
        }
      }
      acc + [n]
  }

  /** `vals` is what a set that started as `seeds` holds after taking some
      prefix of the draws, in order. */
  ghost predicate HoldsDrawPrefix(vals: set<int>, seeds: set<int>, draws: seq<int>) {
    exists k :: 0 <= k <= |draws| && vals == seeds + Balls(draws[..k])
  }

  /** Taking no draw at all. */
  lemma PrefixNone(seeds: set<int>, draws: seq<int>)
    ensures HoldsDrawPrefix(seeds, seeds, draws)
  {
    assert draws[..0] == [];
    assert seeds == seeds + Balls(draws[..0]);
  }

  /** A prefix of the later draws, after the first draw was added, is a
      prefix of all the draws. */
  lemma PrefixStep(vals: set<int>, seeds: set<int>, draws: seq<int>)
    requires |draws| > 0 && HoldsDrawPrefix(vals, seeds + {draws[0] + 1}, draws[1..])
    ensures HoldsDrawPrefix(vals, seeds, draws)
  {
    var k :| 0 <= k <= |draws[1..]| && vals == seeds + {draws[0] + 1} + Balls(draws[1..][..k]);
    var taken := draws[..k + 1];
    assert taken[0] == draws[0] && taken[1..] == draws[1..][..k];
    BallsCons(taken);
    assert vals == seeds + Balls(taken);
  }

  /** `while (numbers.size < 6) numbers.add(draw + 1)`, consuming the draws in
      order. `None` when the draws run out before the set holds six numbers:
      the loop would still be running. The result is the starting set plus the
      numbers of the shortest prefix of the draws that fills it; since each
      draw adds at most one number, that pins down which numbers are kept. The
      loop finishes exactly when the numbers already held and the drawn ones
      make at least six distinct values. */
  function Fill(acc: seq<int>, draws: seq<int>): (r: Option<seq<int>>)
    requires NoDuplicates(acc) && |acc| <= PickCount
    ensures r.Some? ==> |r.value| == PickCount && NoDuplicates(r.value)
    ensures r.Some? ==> Elements(acc) <= Elements(r.value) <= Elements(acc) + Balls(draws)
    ensures r.Some? ==> HoldsDrawPrefix(Elements(r.value), Elements(acc), draws)
    ensures r.Some? <==> |Elements(acc) + Balls(draws)| >= PickCount
    decreases |draws|
  {
    ElementsOfNoDuplicates(acc);
    SubsetSize(Elements(acc), Elements(acc) + Balls(draws));
    if |acc| >= PickCount then
      PrefixNone(Elements(acc), draws);
      Some(acc)
    else if |draws| == 0 then
      assert Balls(draws) == {};
      None
    else
      var next := AddToSet(acc, draws[0] + 1);
      BallsCons(draws);
      assert Elements(next) + Balls(draws[1..]) == Elements(acc) + Balls(draws);
      var r := Fill(next, draws[1..]);
      assert r.Some? ==> HoldsDrawPrefix(Elements(r.value), Elements(acc), draws) by {
        if r.Some? {
          PrefixStep(Elements(r.value), Elements(acc), draws);
        }
      }
      r
  }

  /** Turns a finished sampling loop into its sorted result. */
  function SortPick(filled: Option<seq<int>>): (r: Option<seq<int>>)
    requires filled.Some? ==> |filled.value| == PickCount && NoDuplicates(filled.value)
    ensures r.Some? <==> filled.Some?
    ensures r.Some? ==> |r.value| == PickCount && StrictlyAscending(r.value)
    ensures r.Some? ==> Elements(r.value) == Elements(filled.value)
  {
    match filled
    case None => None
    case Some(nums) =>
      SortDistinct(nums);
      Some(SortAscending(nums))
  }

  /** quickPick: six distinct board numbers, ascending, all taken from the
      draws; it finishes exactly when the draws name six distinct numbers. */
  function QuickPick(draws: seq<int>): (r: Option<seq<int>>)
    requires ValidDraws(draws)
    ensures r.Some? ==> IsTicket(r.value)
    ensures r.Some? ==> Elements(r.value) <= Balls(draws)
    ensures r.Some? ==> HoldsDrawPrefix(Elements(r.value), {}, draws)
    ensures r.Some? <==> |Balls(draws)| >= PickCount
  {
    assert Elements<int>([]) == {};
    var r := SortPick(Fill([], draws));
    assert r.Some? ==> IsTicket(r.value) by {
      if r.Some? {
        BallsOnBoard(draws);
        PickIsTicket(r.value, Balls(draws));
      }
    }
    r
  }

  predicate HasLuckyPrime(s: seq<int>) {
    exists i :: 0 <= i < |s| && s[i] in LuckyPrimes
  }

  predicate HasZodiacNumber(s: seq<int>) {
    exists i :: 0 <= i < |s| && s[i] in ZodiacNumbers
  }

  /** The sampling loop seeded with two distinct board numbers `p` and `z`,
      then sorted. */
  function SeededPick(p: int, z: int, draws: seq<int>): (r: Option<seq<int>>)
    requires IsBall(p) && IsBall(z) && p != z && ValidDraws(draws)
    ensures r.Some? ==> IsTicket(r.value) && p in r.value && z in r.value
    ensures r.Some? ==> Elements(r.value) <= {p, z} + Balls(draws)
    ensures r.Some? ==> HoldsDrawPrefix(Elements(r.value), {p, z}, draws)
    ensures r.Some? <==> |{p, z} + Balls(draws)| >= PickCount
  {
    var seeded := AddToSet(AddToSet([], p), z);
    SeedSet(p, z);
    var r := SortPick(Fill(seeded, draws));
    assert r.Some? ==> IsTicket(r.value) && p in r.value && z in r.value by {
      if r.Some? {
        BallsOnBoard(draws);
        PickIsTicket(r.value, {p, z} + Balls(draws));
        assert p in Elements(r.value) && z in Elements(r.value);
      }
    }
    r
  }

  /** Adding two distinct numbers to an empty set. */
  lemma SeedSet(p: int, z: int)
    requires p != z
    ensures AddToSet(AddToSet([], p), z) == [p, z]
    ensures NoDuplicates([p, z]) && Elements([p, z]) == {p, z}
  {
  }

  /** throwLuckyNumbers: one lucky prime (table index `prime`) and one zodiac
      number (table index `zodiac`) are put in the set first; the draws fill
      the rest. The result is a ticket holding both seeds. */
  function ThrowLucky(prime: nat, zodiac: nat, draws: seq<int>): (r: Option<seq<int>>)
    requires prime < |LuckyPrimes| && zodiac < |ZodiacNumbers| && ValidDraws(draws)
    ensures r.Some? ==> IsTicket(r.value)
    ensures r.Some? ==> LuckyPrimes[prime] in r.value && ZodiacNumbers[zodiac] in r.value
    ensures r.Some? ==> HasLuckyPrime(r.value) && HasZodiacNumber(r.value)
    ensures r.Some? ==> Elements(r.value) <= {LuckyPrimes[prime], ZodiacNumbers[zodiac]} + Balls(draws)
    ensures r.Some? ==> HoldsDrawPrefix(Elements(r.value), {LuckyPrimes[prime], ZodiacNumbers[zodiac]}, draws)
    ensures r.Some? <==> |{LuckyPrimes[prime], ZodiacNumbers[zodiac]} + Balls(draws)| >= PickCount
  {
    SeedsOnBoard(prime, zodiac);
    SeededPick(LuckyPrimes[prime], ZodiacNumbers[zodiac], draws)
  }

  /** A sorted six-number pick drawn from board numbers is a ticket. */
  lemma PickIsTicket(s: seq<int>, allowed: set<int>)
    requires |s| == PickCount && StrictlyAscending(s)
    requires Elements(s) <= allowed && forall n :: n in allowed ==> IsBall(n)
    ensures IsTicket(s)
  {
  }

  /** The two seeds are distinct board numbers. */
  lemma SeedsOnBoard(prime: nat, zodiac: nat)
    requires prime < |LuckyPrimes| && zodiac < |ZodiacNumbers|
    ensures IsBall(LuckyPrimes[prime]) && IsBall(ZodiacNumbers[zodiac])
    ensures LuckyPrimes[prime] != ZodiacNumbers[zodiac]
  {
  }

  /** Both lucky tables lie on the board and share no number; the zodiac
      table is exactly the multiples of four on the board. */
  lemma LuckyTablesOnBoard()
    ensures forall n :: n in LuckyPrimes ==> IsBall(n)
    ensures forall n :: n in ZodiacNumbers <==> IsBall(n) && n % 4 == 0
    ensures forall n :: n in LuckyPrimes ==> n !in ZodiacNumbers
  {
  }

  // ---------------------------------------------------------------------
  // The component: selection state and the parent notification
  // ---------------------------------------------------------------------

  /** A click on the component. Sampling clicks carry the draws they consume. */
  datatype Click =
    | NumberClicked(num: int)
    | QuickPickClicked(draws: seq<int>)
    | ThrowLuckyClicked(prime: nat, zodiac: nat, draws: seq<int>)

  /** What the board can produce: numbers 1..49 and in-range random draws. */
  predicate ValidClick(c: Click) {
    match c
    case NumberClicked(num) => IsBall(num)
    case QuickPickClicked(draws) => ValidDraws(draws)
    case ThrowLuckyClicked(prime, zodiac, draws) =>
      prime < |LuckyPrimes| && zodiac < |ZodiacNumbers| && ValidDraws(draws)
  }

  /** The new selection and, when the parent's `onNumbersSelected` is called,
      the list it is called with. */
  datatype Outcome = Outcome(selected: seq<int>, notified: Option<seq<int>>)

  /** Handles one click. `None` when a sampling click's draws ran out. */
  function HandleClick(sel: seq<int>, c: Click): (r: Option<Outcome>)
    requires ValidClick(c)
    ensures c.NumberClicked? ==> r == Some(Outcome(ToggleNumber(sel, c.num), None))
    ensures c.QuickPickClicked? ==> (r.Some? <==> QuickPick(c.draws).Some?)
    ensures c.QuickPickClicked? && r.Some? ==> r.value.selected == QuickPick(c.draws).value
    ensures c.ThrowLuckyClicked? ==> (r.Some? <==> ThrowLucky(c.prime, c.zodiac, c.draws).Some?)
    ensures c.ThrowLuckyClicked? && r.Some? ==> r.value.selected == ThrowLucky(c.prime, c.zodiac, c.draws).value
    ensures r.Some? && !c.NumberClicked? ==> r.value.notified == Some(r.value.selected)
    ensures r.Some? && !c.NumberClicked? ==> IsTicket(r.value.selected)
    ensures ValidSelection(sel) && r.Some? ==> ValidSelection(r.value.selected)
  {
    match c
    case NumberClicked(num) =>
      assert ValidSelection(sel) ==> ValidSelection(ToggleNumber(sel, num)) by {
        if ValidSelection(sel) {
          TogglePreservesValid(sel, num);
        }
      }
      Some(Outcome(ToggleNumber(sel, num), None))
    case QuickPickClicked(draws) =>
      var pick := QuickPick(draws);
      if pick.None? then None
      else
        TicketIsValidSelection(pick.value);
        Some(Outcome(pick.value, Some(pick.value)))
    case ThrowLuckyClicked(prime, zodiac, draws) =>
      var pick := ThrowLucky(prime, zodiac, draws);
      if pick.None? then None
      else
        TicketIsValidSelection(pick.value);
        Some(Outcome(pick.value, Some(pick.value)))
  }

  /** The selection after a series of clicks from `sel`; `None` if some
      sampling click ran out of draws. */
  function RunClicks(sel: seq<int>, clicks: seq<Click>): Option<seq<int>>
    decreases |clicks|
    requires forall i :: 0 <= i < |clicks| ==> ValidClick(clicks[i])
  {
    if |clicks| == 0 then Some(sel)
    else
      match HandleClick(sel, clicks[0])
      case None => None
      case Some(o) => RunClicks(o.selected, clicks[1..])
  }

  /** Starting from the empty selection, every reachable selection keeps the
      invariant. */
  lemma {:induction false} RunClicksPreservesValid(sel: seq<int>, clicks: seq<Click>)
    requires forall i :: 0 <= i < |clicks| ==> ValidClick(clicks[i])
    requires ValidSelection(sel)
    ensures RunClicks(sel, clicks).Some? ==> ValidSelection(RunClicks(sel, clicks).value)
    decreases |clicks|
  {
    if |clicks| > 0 {
      var step := HandleClick(sel, clicks[0]);
      assert forall i :: 0 <= i < |clicks[1..]| ==> ValidClick(clicks[1..][i]) by {
        forall i | 0 <= i < |clicks[1..]| ensures ValidClick(clicks[1..][i]) {
          assert clicks[1..][i] == clicks[i + 1];
        }
      }
      if step.Some? {
        RunClicksPreservesValid(step.value.selected, clicks[1..]);
      }
    }
  }
}
