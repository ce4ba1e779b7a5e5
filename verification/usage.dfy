/**
 The monthly budget ledger for paid model calls. The ledger records the month it belongs to,
 the month's total spend and the spend per model; it is reset when the calendar month changes,
 allows calls while the total is below the monthly limit and accumulates the cost of each call.
 The stored ledger and the current date are parameters: reading and writing the ledger file and
 reading the clock are not modelled. Money is exact (`real`).
 */
module Usage {
  import opened Wrappers
  import Strings

  /** The spending cap per calendar month, in dollars. */
  const MonthlyLimit: real := 5.0

  const EmbeddingModel: string := "text-embedding-3-small"
  const ChatInput: string := "gpt-3.5-turbo-input"
  const ChatOutput: string := "gpt-3.5-turbo-output"

  /** Dollars per token: $0.02, $0.50 and $1.50 per million tokens; any other model costs nothing. */
  function Price(model: string): (p: real)
    ensures p >= 0.0
    ensures model != EmbeddingModel && model != ChatInput && model != ChatOutput ==> p == 0.0
  {
    if model == EmbeddingModel then 0.02 / 1000000.0
    else if model == ChatInput then 0.50 / 1000000.0
    else if model == ChatOutput then 1.50 / 1000000.0
    else 0.0
  }

  // ---------------------------------------------------------------------------
  // Months
  // ---------------------------------------------------------------------------

  type Month = m: int | 1 <= m <= 12 witness 1

  /** The calendar date as far as the ledger reads it. */
  datatype Date = Date(year: nat, month: Month)

  /** Months counted from year 0: consecutive months have consecutive indices. */
  function MonthIndex(d: Date): int
  {
    12 * d.year + (d.month - 1)
  }

  /** `strftime("%Y-%m")`: the ledger's month key, such as `2024-03`. */
  function MonthKey(d: Date): (k: string)
    ensures |k| == |Strings.NatToDecimal(d.year)| + 3
    ensures k[|k| - 3] == '-'
    ensures k[..|k| - 3] == Strings.NatToDecimal(d.year) && k[|k| - 2..] == Strings.Pad2(d.month)
    ensures Strings.IsDigits(k[..|k| - 3]) && Strings.DecimalValue(k[..|k| - 3]) == d.year
    ensures Strings.IsDigits(k[|k| - 2..]) && Strings.DecimalValue(k[|k| - 2..]) == d.month
  {
    var y := Strings.NatToDecimal(d.year);
    var k := y + "-" + Strings.Pad2(d.month);
    assert k[..|k| - 3] == y;
    assert k[|k| - 2..] == Strings.Pad2(d.month);
    Strings.DecimalRoundTrip(d.year);
    k
  }

  /** The length of the run of decimal digits a string starts with. */
  function DigitRun(s: string): (n: nat)
    ensures n <= |s|
    decreases |s|
  {
    if |s| > 0 && '0' <= s[0] <= '9' then 1 + DigitRun(s[1..]) else 0
  }

  /** A digit string followed by a non-digit: the run ends exactly where the digits do. */
  lemma {:induction false} DigitRunOf(x: string, rest: string)
    requires Strings.IsDigits(x)
    requires |rest| > 0 && !('0' <= rest[0] <= '9')
    ensures DigitRun(x + rest) == |x|
    decreases |x|
  {
    if |x| == 0 {
      assert x + rest == rest;
    } else {
      assert (x + rest)[1..] == x[1..] + rest;
      DigitRunOf(x[1..], rest);
    }
  }

  /** Digits, a dash, digits: the digit strings on either side of the dash are determined. */
  lemma SplitAtDash(x: string, y: string, x': string, y': string)
    requires Strings.IsDigits(x) && Strings.IsDigits(x')
    requires x + "-" + y == x' + "-" + y'
    ensures x == x' && y == y'
  {
    var s := x + "-" + y;
    assert s == x + ("-" + y) == x' + ("-" + y');
    DigitRunOf(x, "-" + y);
    DigitRunOf(x', "-" + y');
    assert x == s[..|x|] == x';
    assert y == s[|x| + 1..] == y';
  }

  /** Distinct months have distinct keys, so a key mismatch is exactly a change of month. */
  lemma MonthKeyInjective(a: Date, b: Date)
    requires MonthKey(a) == MonthKey(b)
    ensures a.year == b.year && a.month == b.month
  {
    SplitAtDash(Strings.NatToDecimal(a.year), Strings.Pad2(a.month), Strings.NatToDecimal(b.year), Strings.Pad2(b.month));
    Strings.DecimalInjective(a.year, b.year);
  }

  /**
   The first day of the following month, as the limit message computes it: the month advances
   by `month % 12 + 1` and the year only when the current month is December.
   */
  function NextMonth(d: Date): (n: Date)
    ensures MonthIndex(n) == MonthIndex(d) + 1
    ensures d.month < 12 ==> n.year == d.year
  {
    var m := d.month % 12 + 1;
    if d.month == 12 then Date(d.year + 1, m) else Date(d.year, m)
  }

  const MonthNames: seq<string> := ["January", "February", "March", "April", "May", "June", "July",
                                    "August", "September", "October", "November", "December"]

  /** `strftime("%B")` in the C locale. */
  function MonthName(m: Month): string
  {
    MonthNames[m - 1]
  }

  /** The message returned with a denial: the limit to two decimals and the date service resumes. */
  const LimitPrefix: string := "Monthly usage limit ($5.00) reached. Service will resume on "

  /** The resumption date as written in the message, such as `April 1, 2024.`. */
  function ResumeDate(d: Date): string
  {
    MonthName(d.month) + " 1, " + Strings.NatToDecimal(d.year) + "."
  }

  function LimitMessage(now: Date): (msg: string)
    ensures LimitPrefix <= msg
    ensures msg[|LimitPrefix|..] == ResumeDate(NextMonth(now))
  {
    var msg := LimitPrefix + ResumeDate(NextMonth(now));
    assert msg[|LimitPrefix|..] == ResumeDate(NextMonth(now));
    msg
  }

  /** A denial in December names January 1 of the following year. */
  lemma DecemberResumesInJanuary(year: nat)
    ensures LimitMessage(Date(year, 12))[|LimitPrefix|..] == "January 1, " + Strings.NatToDecimal(year + 1) + "."
  {
  }

  // ---------------------------------------------------------------------------
  // The ledger
  // ---------------------------------------------------------------------------

  /**
   The stored ledger, each key possibly missing: `month`, `total_cost` and the per-model
   `breakdown` (whose key order plays no part in the tracker's behaviour).
   */
  datatype Ledger = Ledger(month: Option<string>, totalCost: Option<real>, breakdown: Option<map<string, real>>)

  /** `data.get("total_cost", 0.0)`. */
  function Total(l: Ledger): real
  {
    l.totalCost.GetOr(0.0)
  }

  /** `data.get("breakdown", {})`. */
  function Breakdown(l: Ledger): map<string, real>
  {
    l.breakdown.GetOr(map[])
  }

  /** The ledger of a month with nothing spent yet. */
  function Fresh(now: Date): (l: Ledger)
    ensures Total(l) == 0.0 && Breakdown(l) == map[]
  {
    Ledger(Some(MonthKey(now)), Some(0.0), Some(map[]))
  }

  /** `_maybe_reset_month`: a ledger of another month is replaced by a fresh one. */
  function MaybeResetMonth(data: Ledger, now: Date): (r: Ledger)
    ensures r.month == Some(MonthKey(now))
    ensures data.month == Some(MonthKey(now)) ==> r == data
    ensures data.month != Some(MonthKey(now)) ==> Total(r) == 0.0 && Breakdown(r) == map[]
  {
    if data.month != Some(MonthKey(now)) then Fresh(now) else data
  }

  /** Resetting twice in the same month is resetting once. */
  lemma MaybeResetIdempotent(data: Ledger, now: Date)
    ensures MaybeResetMonth(MaybeResetMonth(data, now), now) == MaybeResetMonth(data, now)
  {
  }

  /** A ledger is reset exactly when it was written in a different month. */
  lemma ResetExactlyOnMonthChange(data: Ledger, written: Date, now: Date)
    requires data.month == Some(MonthKey(written))
    ensures MaybeResetMonth(data, now) == data <==> (written.year == now.year && written.month == now.month)
  {
    if MaybeResetMonth(data, now) == data {
      MonthKeyInjective(written, now);
    }
  }

  /** The answer of `check_usage_limit`. */
  datatype LimitCheck = LimitCheck(allowed: bool, remaining: real, message: string)

  /**
   `check_usage_limit`: after the month reset (whose result is saved), calls are allowed
   exactly while the total is below the limit, with the rest of the budget remaining; a
   denial reports nothing remaining and says when service resumes.
   */
  function CheckUsageLimit(loaded: Ledger, now: Date): (r: (LimitCheck, Ledger))
    ensures r.1 == MaybeResetMonth(loaded, now)
    ensures r.0.allowed <==> Total(r.1) < MonthlyLimit
    ensures r.0.allowed ==> r.0.remaining == MonthlyLimit - Total(r.1) && r.0.remaining > 0.0 && r.0.message == ""
    ensures !r.0.allowed ==> r.0.remaining == 0.0 && r.0.message == LimitMessage(now)
  {
    var data := MaybeResetMonth(loaded, now);
    var total := Total(data);
    if total >= MonthlyLimit then (LimitCheck(false, 0.0, LimitMessage(now)), data)
    else (LimitCheck(true, MonthlyLimit - total, ""), data)
  }

  /** The result of `record_usage`: this call's cost and the ledger written back. */
  datatype Recorded = Recorded(cost: real, ledger: Ledger)

  /**
   `record_usage`: the cost is tokens times the model's price. The month reset happens first;
   then the total and the model's breakdown entry both rise by the cost and every other entry
   is kept. A missing total counts as 0 and a missing breakdown as empty.
   */
  function RecordUsage(loaded: Ledger, now: Date, model: string, tokens: int): (r: Recorded)
    ensures r.cost == tokens as real * Price(model)
    ensures r.ledger.month == Some(MonthKey(now))
    ensures var data := MaybeResetMonth(loaded, now);
            Total(r.ledger) == Total(data) + r.cost
            && model in Breakdown(r.ledger)
            && Breakdown(r.ledger)[model] == (if model in Breakdown(data) then Breakdown(data)[model] else 0.0) + r.cost
            && (forall m :: m != model ==> (m in Breakdown(r.ledger) <==> m in Breakdown(data)))
            && (forall m :: m != model && m in Breakdown(data) ==> Breakdown(r.ledger)[m] == Breakdown(data)[m])
  {
    var data := MaybeResetMonth(loaded, now);
    var cost := tokens as real * Price(model);
    var b := Breakdown(data);
    var was := if model in b then b[model] else 0.0;
    Recorded(cost, Ledger(data.month, Some(Total(data) + cost), Some(b[model := was + cost])))
  }

  /** Recording in a new month starts from nothing: the total is just this call's cost. */
  lemma RecordInNewMonth(loaded: Ledger, now: Date, model: string, tokens: int)
    requires loaded.month != Some(MonthKey(now))
    ensures var r := RecordUsage(loaded, now, model, tokens);
            Total(r.ledger) == r.cost && Breakdown(r.ledger) == map[model := r.cost]
  {
  }

  /** An unknown model costs nothing and leaves the total where the reset put it. */
  lemma UnknownModelIsFree(loaded: Ledger, now: Date, model: string, tokens: int)
    requires model != EmbeddingModel && model != ChatInput && model != ChatOutput
    ensures var r := RecordUsage(loaded, now, model, tokens);
            r.cost == 0.0 && Total(r.ledger) == Total(MaybeResetMonth(loaded, now))
  {
  }

  // ---------------------------------------------------------------------------
  // The breakdown accounts for the total
  // ---------------------------------------------------------------------------

  /** The sum of the breakdown's amounts. */
  ghost function Sum(m: map<string, real>): real
    decreases |m|
  {
    if |m| == 0 then 0.0
    else
      var k := Pick(m);
      m[k] + Sum(m - {k})
  }

  /** Some key of a non-empty map. */
  ghost function Pick(m: map<string, real>): (k: string)
    requires |m| > 0
    ensures k in m
  {
    var k :| k in m; k
  }

  /** Any key can be taken out first. */
  lemma {:induction false} SumRemove(m: map<string, real>, k: string)
    requires k in m
    ensures Sum(m) == m[k] + Sum(m - {k})
    decreases |m|
  {
    var j := Pick(m);
    if j != k {
      var mj := m - {j};
      var mk := m - {k};
      assert |mj| == |m| - 1 && |mk| == |m| - 1;
      assert Sum(m) == m[j] + Sum(mj);
      SumRemove(mj, k);
      SumRemove(mk, j);
      assert mj - {k} == mk - {j};
    }
  }

  /** Setting one amount changes the sum by the difference. */
  lemma SumUpdate(m: map<string, real>, k: string, v: real)
    ensures Sum(m[k := v]) == Sum(m) - (if k in m then m[k] else 0.0) + v
  {
    var u := m[k := v];
    SumRemove(u, k);
    assert u - {k} == m - {k};
    if k in m {
      SumRemove(m, k);
    } else {
      assert m - {k} == m;
    }
  }

  /** The invariant the tracker keeps: the per-model amounts add up to the month's total. */
  ghost predicate Consistent(l: Ledger)
  {
    Total(l) == Sum(Breakdown(l))
  }

  /** A fresh month's ledger is consistent, and so is the default the tracker starts from. */
  lemma FreshConsistent(now: Date)
    ensures Consistent(Fresh(now))
  {
    assert Sum(map[]) == 0.0;
  }

  /** The month reset and every recorded call keep the breakdown consistent with the total. */
  lemma RecordKeepsConsistent(loaded: Ledger, now: Date, model: string, tokens: int)
    requires Consistent(loaded)
    ensures Consistent(MaybeResetMonth(loaded, now))
    ensures Consistent(RecordUsage(loaded, now, model, tokens).ledger)
  {
    var data := MaybeResetMonth(loaded, now);
    if data != loaded {
      FreshConsistent(now);
    }
    var b := Breakdown(data);
    var r := RecordUsage(loaded, now, model, tokens);
    var was := if model in b then b[model] else 0.0;
    SumUpdate(b, model, was + r.cost);
  }

  // ---------------------------------------------------------------------------
  // The gate over a month
  // ---------------------------------------------------------------------------

  /**
   Once a month's spend reaches the limit, every later check in that month is denied however
   much more is recorded (token counts being non-negative), and the first check of any other
   month is allowed with the whole budget.
   */
  lemma DeniedUntilMonthChanges(loaded: Ledger, now: Date, model: string, tokens: nat, later: Date)
    requires !CheckUsageLimit(loaded, now).0.allowed
    ensures var after := RecordUsage(loaded, now, model, tokens).ledger;
            !CheckUsageLimit(after, now).0.allowed
    ensures later.year != now.year || later.month != now.month ==>
              var c := CheckUsageLimit(CheckUsageLimit(loaded, now).1, later).0;
              c.allowed && c.remaining == MonthlyLimit
  {
    if later.year != now.year || later.month != now.month {
      if MonthKey(later) == MonthKey(now) {
        MonthKeyInjective(later, now);
      }
    }
  }

  /** What `get_usage_stats` reports. */
  datatype Stats = Stats(month: string, totalCost: real, limit: real, remaining: real, breakdown: map<string, real>)

  /** `get_usage_stats`: the reset ledger's figures, with the remaining budget floored at 0. */
  function GetUsageStats(loaded: Ledger, now: Date): (r: (Stats, Ledger))
    ensures r.1 == MaybeResetMonth(loaded, now)
    ensures r.0.month == MonthKey(now) && r.0.limit == MonthlyLimit
    ensures r.0.remaining >= 0.0
    ensures r.0.remaining == (if Total(r.1) <= MonthlyLimit then MonthlyLimit - Total(r.1) else 0.0)
    ensures r.0.totalCost == Total(r.1) && r.0.breakdown == Breakdown(r.1)
  {
    var data := MaybeResetMonth(loaded, now);
    var total := Total(data);
    (Stats(MonthKey(now), total, MonthlyLimit, if MonthlyLimit - total > 0.0 then MonthlyLimit - total else 0.0,
           Breakdown(data)), data)
  }

  /** The statistics and the gate agree on the remaining budget, at the same moment. */
  lemma StatsAgreeWithCheck(loaded: Ledger, now: Date)
    ensures CheckUsageLimit(loaded, now).0.remaining == GetUsageStats(loaded, now).0.remaining
    ensures CheckUsageLimit(loaded, now).1 == GetUsageStats(loaded, now).1
  {
  }
}
