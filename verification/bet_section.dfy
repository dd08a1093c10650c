/** The betting panel's two text fields (bet amount and, inside the
    add-funds dialog, fund amount) and the dialog's open flag.

    Each keystroke offers the field a whole new text. The field stores it
    only when it passes the filter `value === '' || /^\d*\.?\d*$/.test(value)`
    and otherwise keeps what it had. */
module BetSection {

  /** `\d` in a JavaScript regular expression without the `u` flag: an
      ASCII digit. */
  predicate IsDigit(c: char) {
    '0' <= c <= '9'
  }

  predicate AllDigits(s: string) {
    forall i :: 0 <= i < |s| ==> IsDigit(s[i])
  }

  /** The regular expression `^\d*\.?\d*$` read as a language: digits, then
      at most one `.`, then digits, and nothing else (`$` without the `m`
      flag anchors at the very end). */
  ghost predicate InAmountLanguage(s: string) {
    exists i, j :: AmountSplit(s, i, j)
  }

  /** `s[..i]` matches `\d*`, `s[i..j]` matches `\.?` and `s[j..]` matches `\d*`. */
  predicate AmountSplit(s: string, i: int, j: int) {
    && 0 <= i <= j <= |s| && j - i <= 1
    && AllDigits(s[..i])
    && (j == i + 1 ==> s[i] == '.')
    && AllDigits(s[j..])
  }

  /** A left-to-right scanner for `^\d*\.?\d*$`: `seenDot` records whether the
      optional `.` has been consumed. */
  function ScanAmount(s: string, seenDot: bool): (r: bool)
    ensures r ==> forall i :: 0 <= i < |s| ==> IsDigit(s[i]) || s[i] == '.'
    decreases |s|
  {
    assert forall i :: 0 < i < |s| ==> s[i] == s[1..][i - 1];
    if |s| == 0 then true
    else if IsDigit(s[0]) then ScanAmount(s[1..], seenDot)
    else if s[0] == '.' && !seenDot then ScanAmount(s[1..], true)
    else false
  }

  /** The field filter of `handleBetAmountChange` and `handleFundAmountChange`.
      It admits exactly the texts of ASCII digits with at most one `.`; the
      empty-string test in front of the regular expression changes nothing. */
  function Admits(value: string): (r: bool)
    ensures r <==> DigitsAndOneDot(value)
    ensures r == ScanAmount(value, false)
  {
    ScanIffDigitsAndOneDot(value);
    value == "" || ScanAmount(value, false)
  }

  lemma {:induction false} ScanAfterDot(s: string)
    ensures ScanAmount(s, true) <==> AllDigits(s)
    decreases |s|
  {
    if |s| > 0 {
      ScanAfterDot(s[1..]);
      assert AllDigits(s) <==> IsDigit(s[0]) && AllDigits(s[1..]) by {
        if IsDigit(s[0]) && AllDigits(s[1..]) {
          forall k | 0 <= k < |s| ensures IsDigit(s[k]) {
            if k > 0 {
              assert s[k] == s[1..][k - 1];
            }
          }
        }
      }
    }
  }

  lemma {:induction false} ScanSkipsDigits(p: string, t: string, seenDot: bool)
    requires AllDigits(p)
    ensures ScanAmount(p + t, seenDot) == ScanAmount(t, seenDot)
    decreases |p|
  {
    if |p| > 0 {
      assert IsDigit(p[0]);
      assert AllDigits(p[1..]) by {
        forall k | 0 <= k < |p[1..]| ensures IsDigit(p[1..][k]) {
          assert p[1..][k] == p[k + 1];
        }
      }
      assert (p + t)[0] == p[0];
      assert (p + t)[1..] == p[1..] + t;
      ScanSkipsDigits(p[1..], t, seenDot);
    } else {
      assert p + t == t;
    }
  }

  /** The length of the leading run of digits. */
  function LeadingDigits(s: string): (n: nat)
    ensures n <= |s| && AllDigits(s[..n])
    ensures n < |s| ==> !IsDigit(s[n])
  {
    if |s| == 0 || !IsDigit(s[0]) then 0
    else
      var n := 1 + LeadingDigits(s[1..]);
      assert s[..n] == [s[0]] + s[1..][..n - 1];
      n
  }

  /** Every text the scanner accepts is in the language. */
  lemma ScanSound(s: string)
    requires ScanAmount(s, false)
    ensures InAmountLanguage(s)
  {
    var n := LeadingDigits(s);
    assert s == s[..n] + s[n..];
    ScanSkipsDigits(s[..n], s[n..], false);
    if n == |s| {
      assert s[|s|..] == [];
      assert AmountSplit(s, n, n);
    } else {
      var rest := s[n..];
      assert rest[0] == s[n];
      assert rest[1..] == s[n + 1..];
      ScanAfterDot(s[n + 1..]);
      assert AmountSplit(s, n, n + 1);
    }
  }

  /** Every text in the language is accepted by the scanner. */
  lemma ScanComplete(s: string, i: int, j: int)
    requires AmountSplit(s, i, j)
    ensures ScanAmount(s, false)
  {
    assert s == s[..i] + s[i..];
    ScanSkipsDigits(s[..i], s[i..], false);
    var rest := s[i..];
    if j == i {
      assert rest == rest + [];
      ScanSkipsDigits(rest, [], false);
    } else {
      assert rest[0] == '.';
      assert rest[1..] == s[j..];
      ScanAfterDot(s[j..]);
    }
  }

  /** The scanner accepts exactly the language of the regular expression. */
  lemma ScanMatchesRegex(s: string)
    ensures ScanAmount(s, false) <==> InAmountLanguage(s)
  {
    if ScanAmount(s, false) {
      ScanSound(s);
    }
    if InAmountLanguage(s) {
      var i, j :| AmountSplit(s, i, j);
      ScanComplete(s, i, j);
    }
  }

  /** Every character is a digit or `.`, and `.` occurs at most once. */
  predicate DigitsAndOneDot(s: string) {
    && (forall i :: 0 <= i < |s| ==> IsDigit(s[i]) || s[i] == '.')
    && (forall i, j :: 0 <= i < j < |s| && s[i] == '.' ==> s[j] != '.')
  }

  /** The scanner accepts a text iff it consists of ASCII digits with at
      most one `.`. */
  lemma {:induction false} ScanIffDigitsAndOneDot(s: string)
    ensures ScanAmount(s, false) <==> DigitsAndOneDot(s)
  {
    ScanMatchesRegex(s);
    if ScanAmount(s, false) {
      var i, j :| AmountSplit(s, i, j);
      forall k | 0 <= k < |s| ensures IsDigit(s[k]) || s[k] == '.' {
        if k < i {
          assert s[k] == s[..i][k];
        } else if k >= j {
          assert s[k] == s[j..][k - j];
        }
      }
      forall a, b | 0 <= a < b < |s| && s[a] == '.' ensures s[b] != '.' {
        assert a == i;
        assert s[b] == s[j..][b - j];
      }
    }
    if DigitsAndOneDot(s) {
      var n := LeadingDigits(s);
      if n == |s| {
        assert s[n..] == [];
        assert AmountSplit(s, n, n);
      } else {
        assert s[n] == '.';
        var rest := s[n + 1..];
        forall k | 0 <= k < |rest| ensures IsDigit(rest[k]) {
          assert rest[k] == s[n + 1 + k];
        }
        assert AmountSplit(s, n, n + 1);
      }
    }
  }

  /** Deleting trailing characters from an admitted text leaves an admitted
      text. */
  lemma {:induction false} AdmitsPrefixClosed(s: string, k: nat)
    requires k <= |s| && Admits(s)
    ensures Admits(s[..k])
  {
    assert forall i :: 0 <= i < k ==> s[..k][i] == s[i];
  }

  /** Texts that are admitted but are not decimal numbers with a digit on
      each side of the point; `"."` has no digit at all. */
  lemma AdmitsNonNumericTexts()
    ensures Admits(".") && Admits("12.") && Admits(".5") && Admits("")
    ensures !Admits("1.2.3") && !Admits("-1") && !Admits("1e5") && !Admits(" 1")
  {
  }

  /** One keystroke on a field: the new text replaces the stored one when
      the filter admits it, and the stored one stays otherwise. */
  function OnChange(stored: string, value: string): (r: string)
    ensures r == value || r == stored
    ensures DigitsAndOneDot(value) ==> r == value
    ensures !DigitsAndOneDot(value) ==> r == stored
    ensures DigitsAndOneDot(stored) ==> DigitsAndOneDot(r)
  {
    if Admits(value) then value else stored
  }

  /** The panel's state: both field texts and whether the add-funds dialog
      is open. */
  datatype Panel = Panel(betAmount: string, fundAmount: string, addingFunds: bool)

  const InitialPanel := Panel("", "", false)

  /** What the user can do. `ConfirmClicked(succeeded)` abstracts the
      `parseFloat(fundAmount) > 0` test of `handleAddFunds`. */
  datatype PanelEvent =
    | BetTyped(value: string)
    | FundTyped(value: string)
    | AddFundsClicked
    | CancelClicked
    | ConfirmClicked(succeeded: bool)

  /** Both fields hold admitted text. */
  predicate PanelInvariant(p: Panel) {
    DigitsAndOneDot(p.betAmount) && DigitsAndOneDot(p.fundAmount)
  }

  /** One event. The fund field and the dialog's confirm and cancel buttons
      exist only while the dialog is open, so with the dialog closed those
      events change nothing. */
  function Handle(p: Panel, e: PanelEvent): (r: Panel)
    ensures e.BetTyped? ==> r == p.(betAmount := OnChange(p.betAmount, e.value))
    ensures e.BetTyped? && !DigitsAndOneDot(e.value) ==> r == p
    ensures e.FundTyped? && p.addingFunds ==> r == p.(fundAmount := OnChange(p.fundAmount, e.value))
    ensures e.FundTyped? && !DigitsAndOneDot(e.value) ==> r == p
    ensures e.AddFundsClicked? ==> r.addingFunds && r.betAmount == p.betAmount && r.fundAmount == p.fundAmount
    ensures e.CancelClicked? ==> !r.addingFunds && r.betAmount == p.betAmount && r.fundAmount == p.fundAmount
    ensures e.ConfirmClicked? && e.succeeded && p.addingFunds ==>
              !r.addingFunds && r.fundAmount == "" && r.betAmount == p.betAmount
    ensures e.ConfirmClicked? && !e.succeeded ==> r == p
    ensures !p.addingFunds && (e.FundTyped? || e.CancelClicked? || e.ConfirmClicked?) ==> r == p
    ensures PanelInvariant(p) ==> PanelInvariant(r)
  {
    match e
    case BetTyped(value) => p.(betAmount := OnChange(p.betAmount, value))
    case FundTyped(value) =>
      if p.addingFunds then p.(fundAmount := OnChange(p.fundAmount, value)) else p
    case AddFundsClicked => p.(addingFunds := true)
    case CancelClicked => p.(addingFunds := false)
    case ConfirmClicked(succeeded) =>
      if succeeded && p.addingFunds then p.(addingFunds := false, fundAmount := "") else p
  }

  function RunPanel(p: Panel, events: seq<PanelEvent>): Panel
    decreases |events|
  {
    if |events| == 0 then p else RunPanel(Handle(p, events[0]), events[1..])
  }

  /** Whatever the user types, clicks or confirms, both fields only ever
      hold admitted text. */
  lemma {:induction false} RunPanelKeepsInvariant(p: Panel, events: seq<PanelEvent>)
    requires PanelInvariant(p)
    ensures PanelInvariant(RunPanel(p, events))
    decreases |events|
  {
    if |events| > 0 {
      RunPanelKeepsInvariant(Handle(p, events[0]), events[1..]);
    }
  }

  lemma InitialPanelKeepsInvariant(events: seq<PanelEvent>)
    ensures PanelInvariant(RunPanel(InitialPanel, events))
  {
    RunPanelKeepsInvariant(InitialPanel, events);
  }
}
