/**
 * The two label columns of the weekly table (lines 202-205): the UK
 * financial year of the week's Monday, from pandas' 'Q-MAR' period year,
 * and the English three-letter abbreviation of its month.
 */
module Labels {
  import opened Wrappers
  import opened Text
  import opened Calendar

  /** `d.to_period('Q-MAR').qyear`: quarters end in March, so April to December are counted
      in the next calendar year. */
  function FiscalQYear(d: Date): int
  {
    if d.month >= 4 then d.year + 1 else d.year
  }

  /** 1 April of year y. */
  function AprilFirst(y: int): Date
  {
    Ymd(y, 4, 1)
  }

  /** The lambda at lines 202-204, given the qyear: the year before it, a dash, and the qyear
      less 2000, both written in decimal. */
  function FinYearLabel(q: int): string
  {
    Show(q - 1) + "-" + Show(q - 2000)
  }

  /** The fin_year column for a week starting on day `weekStarting`. */
  function FinYear(weekStarting: Day): string
  {
    FinYearLabel(FiscalQYear(FromOrdinal(weekStarting)))
  }

  const MONTH_ABBREVIATIONS: seq<string> :=
    ["Jan", "Feb", "Mar", "Apr", "May", "Jun", "Jul", "Aug", "Sep", "Oct", "Nov", "Dec"]

  /** `strftime("%b")` of month m in an English locale. */
  function MonthName(m: int): string
    requires 1 <= m <= 12
  {
    MONTH_ABBREVIATIONS[m - 1]
  }

  /** The month column for a week starting on day `weekStarting`. */
  function MonthAbbrev(weekStarting: Day): string
  {
    MonthName(FromOrdinal(weekStarting).month)
  }

  // ---------------------------------------------------------------------------
  // Properties
  // ---------------------------------------------------------------------------

  /** The qyear q is the financial year running from 1 April of q - 1 up to, not including,
      1 April of q. */
  lemma FiscalYearSpan(d: Date)
    ensures var q := FiscalQYear(d);
            !Before(d, AprilFirst(q - 1)) && Before(d, AprilFirst(q))
  {
  }

  /** The qyear is the only year whose financial year holds d. */
  lemma FiscalYearUnique(d: Date, q: int)
    requires !Before(d, AprilFirst(q - 1)) && Before(d, AprilFirst(q))
    ensures q == FiscalQYear(d)
  {
  }

  lemma ShowNatHasNoMinus(n: nat)
    ensures '-' !in ShowNat(n)
  {
    var s := ShowNat(n);
    assert forall i :: 0 <= i < |s| ==> IsDigit(s[i]);
  }

  /** From 2000 on, the label splits at its dash into the two years, and reading them back
      gives the financial year again. */
  lemma FinYearLabelReadsBack(q: int)
    requires q >= 2000
    ensures var fields := Split(FinYearLabel(q), '-');
            && fields == [Show(q - 1), Show(q - 2000)]
            && ParseInt(fields[0]) == Some(q - 1)
            && ParseInt(fields[1]) == Some(q - 2000)
  {
    ShowNatHasNoMinus(q - 1);
    ShowNatHasNoMinus(q - 2000);
    assert Join([Show(q - 1), Show(q - 2000)], '-') == FinYearLabel(q);
    SplitJoin([Show(q - 1), Show(q - 2000)], '-');
    ParseShow(q - 1);
    ParseShow(q - 2000);
  }

  /** The second year is not zero padded: the financial year 2008/09 is labelled "2008-9". */
  lemma FinYearLabelNotPadded()
    ensures FinYearLabel(2009) == "2008-9"
  {
    assert ShowNat(2008) == "2008" by {
      assert ShowNat(2) == "2";
      assert ShowNat(20) == "20";
      assert ShowNat(200) == "200";
    }
    assert ShowNat(9) == "9";
  }

  /** Twelve different three-letter names, one per month. */
  lemma MonthNamesDistinct(m1: int, m2: int)
    requires 1 <= m1 <= 12 && 1 <= m2 <= 12
    ensures MonthName(m1) == MonthName(m2) <==> m1 == m2
    ensures |MonthName(m1)| == 3
  {
    assert forall i, j :: 0 <= i < j < 12 ==> MONTH_ABBREVIATIONS[i] != MONTH_ABBREVIATIONS[j];
  }
}
