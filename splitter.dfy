/**
 * The page-partition logic of PDFColorSplitter.split_pdf: which original
 * page indices go to the colour output and which to the black-and-white
 * output, and in what order they are inserted. The per-page colour decision
 * (rendering plus the saturation test) is the input `isColor`, one entry per
 * page of the source document.
 */
module Splitter {
  import opened Wrappers
  import opened PageSets
  import opened Duplex

  /** What split_pdf returns: `(has_color, color_path, bw_path, color_pages, bw_pages)`. */
  datatype SplitResult = SplitResult(
    hasColor: bool,
    colorPath: Option<string>,
    bwPath: Option<string>,
    colorPages: Option<seq<int>>,
    bwPages: Option<seq<int>>)

  /** The page indices inserted into the colour and the black-and-white output documents, in insertion order. */
  datatype Assembled = Assembled(colorDoc: seq<int>, bwDoc: seq<int>)

  // ---------------------------------------------------------------------
  // Specification: the page sets the split is meant to produce.
  // ---------------------------------------------------------------------

  /** The pages whose own content tests as colour. */
  function DetectedSet(isColor: seq<bool>): set<int>
  {
    set p | 0 <= p < |isColor| && isColor[p]
  }

  /** The final colour pages: the detected ones, with their sheet partners in duplex mode. */
  function ColorSet(isColor: seq<bool>, duplex: bool): set<int>
  {
    if duplex then Expansion(DetectedSet(isColor), |isColor|) else DetectedSet(isColor)
  }

  /** The final colour pages in ascending order. */
  function ColorIndices(isColor: seq<bool>, duplex: bool): seq<int>
  {
    SortedSet(ColorSet(isColor, duplex))
  }

  /** All other pages of the document, in ascending order. */
  function BwIndices(isColor: seq<bool>, duplex: bool): seq<int>
  {
    SortedSet(Range(|isColor|) - ColorSet(isColor, duplex))
  }

  // ---------------------------------------------------------------------
  // The steps of split_pdf.
  // ---------------------------------------------------------------------

  /** The first loop: every page is tested in order and appended when it is a colour page. */
  method CollectColorPages(isColor: seq<bool>) returns (colorPages: seq<int>)
    ensures StrictlyAscending(colorPages)
    ensures forall p :: p in colorPages <==> 0 <= p < |isColor| && isColor[p]
    ensures colorPages == SortedSet(DetectedSet(isColor))
  {
    colorPages := [];
    for pageNum := 0 to |isColor|
      invariant StrictlyAscending(colorPages)
      invariant forall p :: p in colorPages <==> 0 <= p < pageNum && isColor[p]
    {
      if isColor[pageNum] {
        AppendAscending(colorPages, pageNum);
        colorPages := colorPages + [pageNum];
      }
    }
    AscendingUnique(colorPages, SortedSet(DetectedSet(isColor)));
  }

  /**
   * The duplex pass: one sweep over the listed pages collects each page's
   * partner when the one-sided bound check admits it and it is not listed
   * yet; the list is then extended and normalised with `sorted(set(...))`.
   */
  method ExpandDuplexPairs(colorPages: seq<int>, n: int) returns (expanded: seq<int>)
    ensures StrictlyAscending(expanded)
    ensures forall p :: p in expanded <==> p in colorPages || (Partner(p) in colorPages && Admitted(Partner(p), n))
    ensures expanded == SortedSet(Expansion(Elems(colorPages), n))
  {
    ghost var partners: set<int> := {};
    var additional: seq<int> := [];
    for i := 0 to |colorPages|
      invariant partners == PartnerSet(Elems(colorPages[..i]), n)
      invariant forall x :: x in additional ==> x in partners
      invariant forall x :: x in partners ==> x in colorPages || x in additional
    {
      var pageNum := colorPages[i];
      ElemsPrefixStep(colorPages, i);
      PartnerSetAdd(Elems(colorPages[..i]), pageNum, n);
      if pageNum % 2 == 0 {
        var pairedPage := pageNum + 1;
        if pairedPage < n && pairedPage !in colorPages {
          additional := additional + [pairedPage];
        }
        partners := partners + (if pairedPage < n then {pairedPage} else {});
      } else {
        var pairedPage := pageNum - 1;
        if pairedPage >= 0 && pairedPage !in colorPages {
          additional := additional + [pairedPage];
        }
        partners := partners + (if pairedPage >= 0 then {pairedPage} else {});
      }
    }
    assert colorPages[..|colorPages|] == colorPages;
    var extended := colorPages + additional;
    ElemsConcat(colorPages, additional);
    forall x | x in Expansion(Elems(colorPages), n)
      ensures x in Elems(extended)
    {
      if x !in colorPages {
        assert x in additional;
      }
    }
    forall x | x in Elems(extended)
      ensures x in Expansion(Elems(colorPages), n)
    {
      if x !in colorPages {
        assert x in partners;
      }
    }
    assert Elems(extended) == Expansion(Elems(colorPages), n);
    expanded := SortedSet(Elems(extended));
    ExpandedMembers(colorPages, n);
  }

  /** The members of `sorted` of the expansion, stated on the list the pass was given. */
  lemma ExpandedMembers(colorPages: seq<int>, n: int)
    ensures forall p :: p in SortedSet(Expansion(Elems(colorPages), n)) <==>
      p in colorPages || (Partner(p) in colorPages && Admitted(Partner(p), n))
  {
    forall p
      ensures p in SortedSet(Expansion(Elems(colorPages), n)) <==>
        p in colorPages || (Partner(p) in colorPages && Admitted(Partner(p), n))
    {
      ExpansionMember(Elems(colorPages), n, p);
    }
  }

  /** The black-and-white loop: every page not in the colour list, in ascending order. */
  method CollectBwPages(colorPages: seq<int>, n: nat) returns (bwPages: seq<int>)
    ensures StrictlyAscending(bwPages)
    ensures forall p :: p in bwPages <==> 0 <= p < n && p !in colorPages
    ensures bwPages == SortedSet(Range(n) - Elems(colorPages))
  {
    bwPages := [];
    for pageNum := 0 to n
      invariant StrictlyAscending(bwPages)
      invariant forall p :: p in bwPages <==> 0 <= p < pageNum && p !in colorPages
    {
      if pageNum !in colorPages {
        AppendAscending(bwPages, pageNum);
        bwPages := bwPages + [pageNum];
      }
    }
    AscendingUnique(bwPages, SortedSet(Range(n) - Elems(colorPages)));
  }

  /** The insertion loops: the pages of `sorted(pages)`, appended one at a time. */
  method InsertInOrder(pages: seq<int>) returns (doc: seq<int>)
    ensures StrictlyAscending(doc)
    ensures forall x :: x in doc <==> x in pages
    ensures StrictlyAscending(pages) ==> doc == pages
  {
    var order := SortedSet(Elems(pages));
    doc := [];
    for i := 0 to |order|
      invariant doc == order[..i]
    {
      doc := doc + [order[i]];
    }
    assert order[..|order|] == order;
    if StrictlyAscending(pages) {
      SortedOfAscending(pages);
    }
  }

  /**
   * split_pdf on a document whose pages test as `isColor`: the colour pages,
   * their duplex partners, the black-and-white complement, the all-monochrome
   * outcome, and the pages handed to each output document.
   */
  method SplitPdf(isColor: seq<bool>, colorPath: string, bwPath: string, duplex: bool)
    returns (result: SplitResult, assembled: Option<Assembled>)
    ensures result.hasColor <==> exists p :: 0 <= p < |isColor| && isColor[p]
    ensures !result.hasColor ==> result == SplitResult(false, None, None, None, None) && assembled == None
    ensures result.hasColor ==>
      var colorPages, bwPages := ColorIndices(isColor, duplex), BwIndices(isColor, duplex);
      result == SplitResult(true, Some(colorPath), Some(bwPath), Some(colorPages), Some(bwPages))
      && assembled == Some(Assembled(colorPages, bwPages))
  {
    var n := |isColor|;
    var colorPages := CollectColorPages(isColor);
    if duplex {
      colorPages := ExpandDuplexPairs(colorPages, n);
    }
    ColorPagesAreColorIndices(isColor, duplex, colorPages);
    var bwPages := CollectBwPages(colorPages, n);

    ColorSetEmptyIff(isColor, duplex);
    if |colorPages| == 0 {
      return SplitResult(false, None, None, None, None), None;
    }

    var colorDoc := InsertInOrder(colorPages);
    var bwDoc := InsertInOrder(bwPages);
    result := SplitResult(true, Some(colorPath), Some(bwPath), Some(colorPages), Some(bwPages));
    assembled := Some(Assembled(colorDoc, bwDoc));
  }

  /** The list the first two steps of split_pdf leave is `sorted` of the final colour set. */
  lemma ColorPagesAreColorIndices(isColor: seq<bool>, duplex: bool, colorPages: seq<int>)
    requires duplex ==> colorPages == SortedSet(Expansion(Elems(SortedSet(DetectedSet(isColor))), |isColor|))
    requires !duplex ==> colorPages == SortedSet(DetectedSet(isColor))
    ensures colorPages == ColorIndices(isColor, duplex)
    ensures Elems(colorPages) == ColorSet(isColor, duplex)
  {
    var d := DetectedSet(isColor);
    ElemsOfSorted(d);
    var c := ColorSet(isColor, duplex);
    assert colorPages == SortedSet(c);
    ElemsOfSorted(c);
  }

  /** The final colour set is empty exactly when no page tests as colour. */
  lemma ColorSetEmptyIff(isColor: seq<bool>, duplex: bool)
    ensures ColorSet(isColor, duplex) == {} <==> forall p :: 0 <= p < |isColor| ==> !isColor[p]
  {
    var d := DetectedSet(isColor);
    if duplex {
      ExpansionEmptyIff(d, |isColor|);
    }
    if d != {} {
      HasElement(d);
      var p :| p in d;
    }
    if exists p :: 0 <= p < |isColor| && isColor[p] {
      var p :| 0 <= p < |isColor| && isColor[p];
      assert p in d;
    }
  }

  // ---------------------------------------------------------------------
  // What the split promises.
  // ---------------------------------------------------------------------

  /** The final colour pages never leave the document. */
  lemma ColorSetWithinDocument(isColor: seq<bool>, duplex: bool)
    ensures ColorSet(isColor, duplex) <= Range(|isColor|)
  {
    if duplex {
      ExpansionWithinDocument(DetectedSet(isColor), |isColor|);
    }
  }

  /**
   * The two outputs partition the document: both ascending, disjoint,
   * together every page index in `[0, n)`, each exactly once.
   */
  lemma SplitPartition(isColor: seq<bool>, duplex: bool)
    ensures StrictlyAscending(ColorIndices(isColor, duplex))
    ensures StrictlyAscending(BwIndices(isColor, duplex))
    ensures forall p :: p in ColorIndices(isColor, duplex) ==> 0 <= p < |isColor|
    ensures forall p :: p in BwIndices(isColor, duplex) ==> 0 <= p < |isColor|
    ensures forall p :: 0 <= p < |isColor| ==> (p in ColorIndices(isColor, duplex) <==> p !in BwIndices(isColor, duplex))
    ensures |ColorIndices(isColor, duplex)| + |BwIndices(isColor, duplex)| == |isColor|
  {
    var n := |isColor|;
    var c := ColorSet(isColor, duplex);
    ColorSetWithinDocument(isColor, duplex);
    RangeSize(n);
    assert Range(n) == c + (Range(n) - c);
    assert |Range(n)| == |c| + |Range(n) - c|;
  }

  /**
   * Which pages are colour pages: without duplex exactly the pages that test
   * as colour; with duplex also every page whose sheet partner does.
   */
  lemma ColorPagesMeaning(isColor: seq<bool>, duplex: bool, p: int)
    requires 0 <= p < |isColor|
    ensures p in ColorIndices(isColor, duplex) <==>
      isColor[p] || (duplex && 0 <= Partner(p) < |isColor| && isColor[Partner(p)])
  {
    ColorSetMeaning(isColor, duplex, p);
  }

  lemma ColorSetMeaning(isColor: seq<bool>, duplex: bool, p: int)
    requires 0 <= p < |isColor|
    ensures p in ColorSet(isColor, duplex) <==>
      isColor[p] || (duplex && 0 <= Partner(p) < |isColor| && isColor[Partner(p)])
  {
    var n := |isColor|;
    var d := DetectedSet(isColor);
    if duplex {
      var q := Partner(p);
      ExpansionMember(d, n, p);
      if 0 <= q < n {
        AdmittedIffPage(q, n);
        assert q in d <==> isColor[q];
      } else {
        assert q !in d;
      }
    }
  }

  /** In duplex mode both sides of every sheet with a colour side go to the colour output. */
  lemma DuplexSheetsStayTogether(isColor: seq<bool>, p: int)
    requires p in ColorIndices(isColor, true)
    requires 0 <= Partner(p) < |isColor|
    ensures Partner(p) in ColorIndices(isColor, true)
  {
    ExpansionClosed(DetectedSet(isColor), |isColor|);
  }

  /** Expanding the output of the duplex pass once more gives the same list. */
  lemma ExpandDuplexPairsIdempotent(colorPages: seq<int>, n: int)
    ensures var once := SortedSet(Expansion(Elems(colorPages), n));
      SortedSet(Expansion(Elems(once), n)) == once
  {
    var e := Expansion(Elems(colorPages), n);
    assert Elems(SortedSet(e)) == e;
    ExpansionIdempotent(Elems(colorPages), n);
  }

  /** Four pages, page 1 alone tests as colour, duplex on: its partner 0 joins it. */
  lemma ScenarioOddPagePullsPartner()
    ensures ColorIndices([false, true, false, false], true) == [0, 1]
    ensures BwIndices([false, true, false, false], true) == [2, 3]
  {
    OddPageColorIndices();
    OddPageBwIndices();
  }

  lemma OddPageColorIndices()
    ensures ColorIndices([false, true, false, false], true) == [0, 1]
  {
    OddPageColorSet();
    SortedPair(ColorSet([false, true, false, false], true), 0, 1);
  }

  lemma OddPageBwIndices()
    ensures BwIndices([false, true, false, false], true) == [2, 3]
  {
    var colorSet := ColorSet([false, true, false, false], true);
    OddPageColorSet();
    assert Range(4) - colorSet == {2, 3};
    SortedPair(Range(4) - colorSet, 2, 3);
  }

  lemma OddPageColorSet()
    ensures ColorSet([false, true, false, false], true) == {0, 1}
  {
    assert DetectedSet([false, true, false, false]) == {1};
    assert PartnerSet({1}, 4) == {0};
  }

  /** A one-page colour document in duplex mode: the partner index 1 is out of range and dropped. */
  lemma ScenarioLastEvenPageUnpaired()
    ensures ColorIndices([true], true) == [0]
    ensures BwIndices([true], true) == []
  {
    var colorSet := ColorSet([true], true);
    LastEvenPageColorSet();
    AscendingUnique(SortedSet(colorSet), [0]);
    assert Range(1) - colorSet == {};
  }

  lemma LastEvenPageColorSet()
    ensures ColorSet([true], true) == {0}
  {
    assert DetectedSet([true]) == {0};
    assert PartnerSet({0}, 1) == {};
  }
}
