/**
  The installment commitment ("InstallmentMoviment") and its expansion into one
  dated posting ("Moviment") per covered month.

  Dates live on the month axis of the `Dates` module.
*/
module Installments {
  import opened Options
  import opened Formatting
  import opened Dates

  datatype Guid = Guid(bits: nat)

  /** The commitment's category and movement type are enumerations whose members are not part of this model. */
  datatype Category = Category(code: nat)
  datatype MovimentType = MovimentType(code: nat)

  /** A C# `decimal` amount; only ever copied or rendered here, never computed with. */
  type Decimal = real

  /**
    An installment commitment. `endMonth`, `installmentsValue`, `createdOn`
    and `id` are computed by its constructor, which is not part of this model,
    so they are independent fields here.
  */
  datatype Commitment = Commitment(
    id: Guid,
    value: Decimal,
    months: int,
    startMonth: int,
    endMonth: int,
    description: string,
    category: Category,
    kind: MovimentType,
    accountId: Guid,
    userId: Guid,
    createdOn: Date,
    installmentsValue: Decimal)

  /** One posting: a ledger movement dated in the month it applies to. */
  datatype Moviment = Moviment(
    value: Decimal,
    description: string,
    category: Category,
    kind: MovimentType,
    accountId: Guid,
    userId: Guid,
    createdOn: Date)

  /** The label of a posting: `(number/months)-Total:total-description`. */
  function Label(number: int, months: int, total: string, description: string): string {
    "(" + IntToString(number) + "/" + IntToString(months) + ")-Total:" + total + "-" + description
  }

  /** Reads the `(number/months)` head back from a label. */
  function LabelCounter(text: string): Option<(int, int)> {
    if |text| == 0 || text[0] != '(' then None
    else
      var body := text[1..];
      match IndexOf(body, '/')
      case None => None
      case Some(slash) =>
        var rest := body[slash + 1..];
        match IndexOf(rest, ')')
        case None => None
        case Some(close) =>
          match (ParseInt(body[..slash]), ParseInt(rest[..close]))
          case (Some(number), Some(months)) => Some((number, months))
          case _ => None
  }

  /** The label's head names the running number and the month count it was built from. */
  lemma LabelCounterOfLabel(number: int, months: int, total: string, description: string)
    ensures LabelCounter(Label(number, months, total, description)) == Some((number, months))
  {
    var n := IntToString(number);
    var m := IntToString(months);
    var tail := ")-Total:" + total + "-" + description;
    var text := Label(number, months, total, description);
    var body := text[1..];
    assert body == n + ['/'] + (m + tail);
    assert '/' !in n;
    IndexOfAfter(n, '/', m + tail);
    var rest := body[|n| + 1..];
    assert rest == m + [')'] + tail[1..];
    assert ')' !in m;
    IndexOfAfter(m, ')', tail[1..]);
    assert body[..|n|] == n;
    assert rest[..|m|] == m;
    IntRoundTrip(number);
    IntRoundTrip(months);
  }

  /** How many postings `SplitIntoMoviments` produces: one per month in [startMonth, endMonth). */
  function InstallmentCount(c: Commitment): nat {
    if c.startMonth < c.endMonth then c.endMonth - c.startMonth else 0
  }

  /** The date of the commitment's `k`-th (0-based) covered month, if `DateTime.AddMonths` can represent it. */
  function InstallmentDate(c: Commitment, k: nat): Option<Date> {
    AddMonths(c.createdOn, c.startMonth + k)
  }

  /**
    `m` is the commitment's posting at 0-based position `k`: running number
    `k + 1`, dated `startMonth + k` months after the commitment's creation,
    worth one installment, with the commitment's category, type, account and user.
  */
  predicate IsInstallmentOf(m: Moviment, c: Commitment, show: Decimal -> string, k: nat) {
    && m.description == Label(k + 1, c.months, show(c.value), c.description)
    && InstallmentDate(c, k) == Some(m.createdOn)
    && m.value == c.installmentsValue
    && m.category == c.category
    && m.kind == c.kind
    && m.accountId == c.accountId
    && m.userId == c.userId
  }

  /** `ms` is the full expansion of `c`: one posting per covered month, in month order. */
  predicate IsExpansionOf(ms: seq<Moviment>, c: Commitment, show: Decimal -> string) {
    && |ms| == InstallmentCount(c)
    && forall k :: 0 <= k < |ms| ==> IsInstallmentOf(ms[k], c, show, k)
  }

  /** Every covered month's date can be computed: `DateTime.AddMonths` throws for none of them. */
  predicate ExpansionFits(c: Commitment) {
    forall k: nat :: k < InstallmentCount(c) ==> InstallmentDate(c, k).Some?
  }

  /**
    Expands a commitment into its postings, walking the months from
    `startMonth` (inclusive) to `endMonth` (exclusive) with a running number
    starting at 1. `show` renders the decimal total into the label. `None`
    stands for the exception `DateTime.AddMonths` throws on a month it cannot
    represent; the postings built before it are lost.
  */
  method SplitIntoMoviments(c: Commitment, show: Decimal -> string) returns (r: Option<seq<Moviment>>)
    ensures r.Some? <==> ExpansionFits(c)
    ensures r.Some? ==> IsExpansionOf(r.value, c, show)
    ensures r.Some? && c.startMonth < c.endMonth ==> |r.value| == c.endMonth - c.startMonth
    ensures r.Some? && c.endMonth <= c.startMonth ==> r.value == []
    ensures r.Some? ==> forall i, j :: 0 <= i < j < |r.value| ==> Before(r.value[i].createdOn, r.value[j].createdOn)
  {
    var moviments := [];
    var number := 1;
    var month := c.startMonth;
    while month < c.endMonth
      invariant number == |moviments| + 1
      invariant month == c.startMonth + |moviments|
      invariant |moviments| <= InstallmentCount(c)
      invariant forall k :: 0 <= k < |moviments| ==> IsInstallmentOf(moviments[k], c, show, k)
      decreases c.endMonth - month
    {
      var description := Label(number, c.months, show(c.value), c.description);
      var futureDate := AddMonths(c.createdOn, month);
      if futureDate.None? {
        assert InstallmentDate(c, |moviments|).None?;
        return None;
      }
      // The constructor stamps the current time; OverrideCreatedDate then replaces it.
      var moviment := Moviment(c.installmentsValue, description, c.category, c.kind, c.accountId, c.userId, futureDate.value);
      moviments := moviments + [moviment];
      number := number + 1;
      month := month + 1;
    }
    assert |moviments| == InstallmentCount(c);
    forall k: nat | k < InstallmentCount(c)
      ensures InstallmentDate(c, k).Some?
    {
      assert IsInstallmentOf(moviments[k], c, show, k);
    }
    return Some(moviments);
  }

  /**
    The expansion fits exactly when there is nothing to expand, or the first and
    last month offsets are within `DateTime.AddMonths`'s bound and land in
    representable years.
  */
  lemma ExpansionFitsIff(c: Commitment)
    ensures ExpansionFits(c) <==>
              || InstallmentCount(c) == 0
              || (&& -MaxMonthShift <= c.startMonth
                  && c.endMonth - 1 <= MaxMonthShift
                  && InCalendar(c.createdOn.monthIndex + c.startMonth)
                  && InCalendar(c.createdOn.monthIndex + c.endMonth - 1))
  {
    var n := InstallmentCount(c);
    if ExpansionFits(c) && n > 0 {
      assert InstallmentDate(c, 0).Some?;
      assert InstallmentDate(c, n - 1).Some?;
    }
  }

  /** An expansion is determined by the commitment: the same inputs always give the same postings. */
  lemma ExpansionIsUnique(a: seq<Moviment>, b: seq<Moviment>, c: Commitment, show: Decimal -> string)
    requires IsExpansionOf(a, c, show) && IsExpansionOf(b, c, show)
    ensures a == b
  {
    forall k | 0 <= k < |a|
      ensures a[k] == b[k]
    {
      assert IsInstallmentOf(a[k], c, show, k) && IsInstallmentOf(b[k], c, show, k);
    }
  }

  /** When the end month is the start month plus the month count, there are exactly `months` postings. */
  lemma InstallmentCountIsMonths(c: Commitment)
    requires c.endMonth == c.startMonth + c.months
    ensures InstallmentCount(c) == (if c.months > 0 then c.months else 0)
  {
  }

  /** Every posting's label reads back as its own 1-based running number over the month count. */
  lemma ExpansionLabelsCount(ms: seq<Moviment>, c: Commitment, show: Decimal -> string)
    requires IsExpansionOf(ms, c, show)
    ensures forall k :: 0 <= k < |ms| ==> LabelCounter(ms[k].description) == Some((k + 1, c.months))
  {
    forall k | 0 <= k < |ms|
      ensures LabelCounter(ms[k].description) == Some((k + 1, c.months))
    {
      assert IsInstallmentOf(ms[k], c, show, k);
      var description := ms[k].description;
      assert description == Label(k + 1, c.months, show(c.value), c.description);
      LabelCounterOfLabel(k + 1, c.months, show(c.value), c.description);
    }
  }

  /** No two postings of one commitment share a label. */
  lemma ExpansionLabelsDistinct(ms: seq<Moviment>, c: Commitment, show: Decimal -> string)
    requires IsExpansionOf(ms, c, show)
    ensures forall i, j :: 0 <= i < j < |ms| ==> ms[i].description != ms[j].description
  {
    ExpansionLabelsCount(ms, c, show);
  }
}
