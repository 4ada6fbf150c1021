/**
 * The hand-off in PDFColorSplitter.process_pdf from split_pdf to the
 * distribution report: the report is printed over the two returned lists,
 * with `total_pages = len(color_pages) + len(bw_pages)`.
 */
module Pipeline {
  import opened Duplex
  import opened Splitter
  import opened Distribution

  /** The total the report is given is the page count of the document. */
  lemma ReportTotalIsPageCount(isColor: seq<bool>, duplex: bool)
    ensures |ColorIndices(isColor, duplex)| + |BwIndices(isColor, duplex)| == |isColor|
  {
    SplitPartition(isColor, duplex);
  }

  /**
   * Over a split's result, the row of page `k` shows `k+1` in the colour
   * column exactly when the page (or, in duplex mode, its sheet partner)
   * tests as colour, and in the black-and-white column otherwise.
   */
  lemma ReportOfSplit(isColor: seq<bool>, duplex: bool, colorPages: seq<int>, bwPages: seq<int>, k: nat)
    requires colorPages == ColorIndices(isColor, duplex) && bwPages == BwIndices(isColor, duplex)
    requires k < |isColor|
    ensures |colorPages| + |bwPages| == |isColor|
    ensures RowIndex(k, duplex) < |Report(colorPages, bwPages, |isColor|, duplex)|
    ensures Report(colorPages, bwPages, |isColor|, duplex)[RowIndex(k, duplex)]
      == if isColor[k] || (duplex && 0 <= Partner(k) < |isColor| && isColor[Partner(k)])
         then DecimalString(k + 1) + Tabs + Tabs
         else Tabs + DecimalString(k + 1) + Tabs
  {
    SplitPartition(isColor, duplex);
    ColorPagesMeaning(isColor, duplex, k);
    RowOfPartition(colorPages, bwPages, |isColor|, duplex, k);
  }

  /** In a report over a partition, row `k` shows `k+1` once, in the column of the list holding `k`. */
  lemma RowOfPartition(colorPages: seq<int>, bwPages: seq<int>, total: nat, duplex: bool, k: nat)
    requires k < total
    requires (k in colorPages) != (k in bwPages)
    ensures RowIndex(k, duplex) < |Report(colorPages, bwPages, total, duplex)|
    ensures Report(colorPages, bwPages, total, duplex)[RowIndex(k, duplex)]
      == if k in colorPages then DecimalString(k + 1) + Tabs + Tabs else Tabs + DecimalString(k + 1) + Tabs
  {
    ReportRowAt(colorPages, bwPages, total, duplex, k);
    RowShowsPageOnce(colorPages, bwPages, k);
  }
}
