/**
 * PDFColorSplitter.display_page_distribution: a side-by-side listing of
 * where each original page went. The report is the sequence of printed
 * lines, one string per `print` call.
 */
module Distribution {

  /** The dashed rule, `"-" * 30`. */
  const Rule: string := "------------------------------"

  /** The three header lines: title (printed after a blank line), column titles, rule. */
  const Header: seq<string> := ["\n页面分布情况：", "彩色打印\t黑白打印", Rule]

  /** The column filler and the text after a page number: two tabs. */
  const Tabs: string := "\t\t"

  function Digit(d: nat): char
    requires d < 10
  {
    "0123456789"[d]
  }

  /** Python's `str(k)` for a natural number: its decimal digits, most significant first. */
  function DecimalString(k: nat): (s: string)
    ensures |s| >= 1
    ensures forall i :: 0 <= i < |s| ==> '0' <= s[i] <= '9'
    ensures k > 0 ==> s[0] != '0'
    decreases k
  {
    if k < 10 then [Digit(k)] else DecimalString(k / 10) + [Digit(k % 10)]
  }

  /** The number a string of decimal digits denotes. */
  function DecimalValue(s: string): nat
    decreases |s|
  {
    if s == [] then 0
    else
      var last := s[|s| - 1];
      10 * DecimalValue(s[..|s| - 1]) + DigitValue(last)
  }

  /** The value of one decimal digit character. */
  function DigitValue(c: char): nat
  {
    if '0' <= c <= '9' then c as int - '0' as int else 0
  }

  lemma DigitRoundTrip(d: nat)
    requires d < 10
    ensures DigitValue(Digit(d)) == d
  {
  }

  /** Reading back a printed page number gives the number. */
  lemma {:induction false} DecimalRoundTrip(k: nat)
    ensures DecimalValue(DecimalString(k)) == k
    decreases k
  {
    var s := DecimalString(k);
    if k < 10 {
      DigitRoundTrip(k);
      assert s[..0] == [];
    } else {
      var prefix := DecimalString(k / 10);
      assert s == prefix + [Digit(k % 10)];
      assert s[..|s| - 1] == prefix;
      DecimalRoundTrip(k / 10);
      DigitRoundTrip(k % 10);
      assert DecimalValue(s) == 10 * DecimalValue(prefix) + DigitValue(Digit(k % 10));
    }
  }

  /** One column of a row: the 1-based page number followed by two tabs, or just the two tabs. */
  function Cell(shown: bool, pageNum: nat): string
  {
    if shown then DecimalString(pageNum + 1) + Tabs else Tabs
  }

  /** The row for page `pageNum`: colour column, then black-and-white column. */
  function Row(colorPages: seq<int>, bwPages: seq<int>, pageNum: nat): string
  {
    Cell(pageNum in colorPages, pageNum) + Cell(pageNum in bwPages, pageNum)
  }

  /** A rule follows the row of `pageNum` in duplex mode after each odd page except the last. */
  predicate SeparatorAfter(pageNum: nat, total: nat, duplex: bool)
  {
    duplex && pageNum % 2 == 1 && pageNum < total - 1
  }

  /** The lines printed once the rows of pages `0..k-1` are out. */
  function ReportUpTo(colorPages: seq<int>, bwPages: seq<int>, total: nat, duplex: bool, k: nat): seq<string>
    decreases k
  {
    if k == 0 then Header
    else
      ReportUpTo(colorPages, bwPages, total, duplex, k - 1)
      + [Row(colorPages, bwPages, k - 1)]
      + (if SeparatorAfter(k - 1, total, duplex) then [Rule] else [])
  }

  /** The whole report for a document of `total` pages. */
  function Report(colorPages: seq<int>, bwPages: seq<int>, total: nat, duplex: bool): seq<string>
  {
    ReportUpTo(colorPages, bwPages, total, duplex, total)
  }

  /** The line at which the row of page `k` is printed. */
  function RowIndex(k: nat, duplex: bool): nat
  {
    3 + k + (if duplex then k / 2 else 0)
  }

  /** The report loop: header, then one row per page, with rules between duplex sheets. */
  method DisplayPageDistribution(colorPages: seq<int>, bwPages: seq<int>, total: nat, duplex: bool)
    returns (lines: seq<string>)
    ensures lines == Report(colorPages, bwPages, total, duplex)
  {
    lines := Header;
    for pageNum := 0 to total
      invariant lines == ReportUpTo(colorPages, bwPages, total, duplex, pageNum)
    {
      var colorPage := Tabs;
      var bwPage := Tabs;
      if pageNum in colorPages {
        colorPage := DecimalString(pageNum + 1) + Tabs;
      }
      if pageNum in bwPages {
        bwPage := DecimalString(pageNum + 1) + Tabs;
      }
      lines := lines + [colorPage + bwPage];
      if duplex && pageNum % 2 == 1 && pageNum < total - 1 {
        lines := lines + [Rule];
      }
    }
  }

  // ---------------------------------------------------------------------
  // The shape of the report.
  // ---------------------------------------------------------------------

  /** Printing more rows only appends: earlier lines stay as they are. */
  lemma {:induction false} ReportUpToPrefix(colorPages: seq<int>, bwPages: seq<int>, total: nat, duplex: bool, j: nat, k: nat)
    requires j <= k
    ensures ReportUpTo(colorPages, bwPages, total, duplex, j) <= ReportUpTo(colorPages, bwPages, total, duplex, k)
    decreases k
  {
    if j < k {
      ReportUpToPrefix(colorPages, bwPages, total, duplex, j, k - 1);
    }
  }

  /** Before the last row, the rows of pages `0..k-1` and their rules fill exactly up to `RowIndex(k)`. */
  lemma {:induction false} ReportUpToLength(colorPages: seq<int>, bwPages: seq<int>, total: nat, duplex: bool, k: nat)
    requires k < total
    ensures |ReportUpTo(colorPages, bwPages, total, duplex, k)| == RowIndex(k, duplex)
    decreases k
  {
    if k > 0 {
      ReportUpToLength(colorPages, bwPages, total, duplex, k - 1);
    }
  }

  /** Three header lines, one row per page, and `(total-1)/2` rules in duplex mode. */
  lemma ReportLength(colorPages: seq<int>, bwPages: seq<int>, total: nat, duplex: bool)
    ensures |Report(colorPages, bwPages, total, duplex)|
      == 3 + total + (if duplex && total > 0 then (total - 1) / 2 else 0)
  {
    if total > 0 {
      ReportUpToLength(colorPages, bwPages, total, duplex, total - 1);
    }
  }

  /** The report opens with the three header lines. */
  lemma ReportHeader(colorPages: seq<int>, bwPages: seq<int>, total: nat, duplex: bool)
    ensures |Report(colorPages, bwPages, total, duplex)| >= 3
    ensures Report(colorPages, bwPages, total, duplex)[..3] == Header
  {
    ReportUpToPrefix(colorPages, bwPages, total, duplex, 0, total);
  }

  /** The row of page `k` sits at line `RowIndex(k)`. */
  lemma ReportRowAt(colorPages: seq<int>, bwPages: seq<int>, total: nat, duplex: bool, k: nat)
    requires k < total
    ensures RowIndex(k, duplex) < |Report(colorPages, bwPages, total, duplex)|
    ensures Report(colorPages, bwPages, total, duplex)[RowIndex(k, duplex)] == Row(colorPages, bwPages, k)
  {
    ReportUpToLength(colorPages, bwPages, total, duplex, k);
    ReportUpToPrefix(colorPages, bwPages, total, duplex, k + 1, total);
  }

  /** A row always ends in a tab, so it is never mistaken for a rule. */
  lemma RowIsNotRule(colorPages: seq<int>, bwPages: seq<int>, k: nat)
    ensures |Row(colorPages, bwPages, k)| > 0
    ensures Row(colorPages, bwPages, k)[|Row(colorPages, bwPages, k)| - 1] == '\t'
    ensures Row(colorPages, bwPages, k) != Rule
  {
    var r := Row(colorPages, bwPages, k);
    assert r[|r| - 1] == '\t';
  }

  /**
   * A rule follows the row of page `k` exactly when duplex is on, `k` is odd
   * and `k` is not the last page; in particular never after the last row.
   */
  lemma ReportSeparatorAt(colorPages: seq<int>, bwPages: seq<int>, total: nat, duplex: bool, k: nat)
    requires k < total
    ensures var lines := Report(colorPages, bwPages, total, duplex);
      (RowIndex(k, duplex) + 1 < |lines| && lines[RowIndex(k, duplex) + 1] == Rule)
      <==> SeparatorAfter(k, total, duplex)
  {
    var lines := Report(colorPages, bwPages, total, duplex);
    var before := ReportUpTo(colorPages, bwPages, total, duplex, k);
    var upTo := ReportUpTo(colorPages, bwPages, total, duplex, k + 1);
    var at := RowIndex(k, duplex);
    ReportUpToLength(colorPages, bwPages, total, duplex, k);
    assert |before| == at;
    assert upTo == before + [Row(colorPages, bwPages, k)]
      + (if SeparatorAfter(k, total, duplex) then [Rule] else []);
    ReportUpToPrefix(colorPages, bwPages, total, duplex, k + 1, total);
    if SeparatorAfter(k, total, duplex) {
      assert upTo[at + 1] == Rule;
    } else if k + 1 < total {
      NextRowFollows(colorPages, bwPages, total, duplex, k);
    } else {
      assert lines == upTo;
    }
  }

  /** Without a rule after row `k`, the next line is the row of page `k+1`, which is not a rule. */
  lemma NextRowFollows(colorPages: seq<int>, bwPages: seq<int>, total: nat, duplex: bool, k: nat)
    requires k + 1 < total && !SeparatorAfter(k, total, duplex)
    ensures RowIndex(k, duplex) + 1 < |Report(colorPages, bwPages, total, duplex)|
    ensures Report(colorPages, bwPages, total, duplex)[RowIndex(k, duplex) + 1] != Rule
  {
    assert RowIndex(k + 1, duplex) == RowIndex(k, duplex) + 1;
    ReportRowAt(colorPages, bwPages, total, duplex, k + 1);
    RowIsNotRule(colorPages, bwPages, k + 1);
  }

  /** Given a partition, the row of page `k` shows `k+1` in exactly the column of the output it went to. */
  lemma RowShowsPageOnce(colorPages: seq<int>, bwPages: seq<int>, k: nat)
    requires (k in colorPages) != (k in bwPages)
    ensures k in colorPages ==> Row(colorPages, bwPages, k) == DecimalString(k + 1) + Tabs + Tabs
    ensures k in bwPages ==> Row(colorPages, bwPages, k) == Tabs + DecimalString(k + 1) + Tabs
  {
  }
}
