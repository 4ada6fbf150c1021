/**
 * Duplex pairing: two consecutive pages (0-1, 2-3, ...) are the two sides of
 * one physical sheet, so a colour page drags its sheet partner into the
 * colour output.
 */
module Duplex {
  import opened PageSets

  /** The other side of the sheet page `p` is printed on: `p+1` for even `p`, `p-1` for odd `p`. */
  function Partner(p: int): int
  {
    if p % 2 == 0 then p + 1 else p - 1
  }

  /**
   * The bound check split_pdf makes before adding a partner: for even `p`
   * only `p+1 < n`, for odd `p` only `p-1 >= 0`.
   */
  predicate Admitted(p: int, n: int)
  {
    if p % 2 == 0 then p + 1 < n else p - 1 >= 0
  }

  /** The partners that one pass over `s` adds. */
  function PartnerSet(s: set<int>, n: int): set<int>
  {
    set p | p in s && Admitted(p, n) :: Partner(p)
  }

  /** Visiting one more listed page adds its partner when the bound check admits it. */
  lemma PartnerSetAdd(s: set<int>, p: int, n: int)
    ensures PartnerSet(s + {p}, n) == PartnerSet(s, n) + (if Admitted(p, n) then {Partner(p)} else {})
  {
  }

  /** The colour pages after duplex expansion: `s` with its admitted partners. */
  function Expansion(s: set<int>, n: int): set<int>
  {
    s + PartnerSet(s, n)
  }

  /** Pairing is symmetric: the partner's partner is the page itself, never the page. */
  lemma PartnerInvolution(p: int)
    ensures Partner(Partner(p)) == p
    ensures Partner(p) != p
  {
  }

  /** For a page of the document, the one-sided check is exactly "the partner is a page too". */
  lemma AdmittedIffPage(p: int, n: int)
    requires 0 <= p < n
    ensures Admitted(p, n) <==> 0 <= Partner(p) < n
  {
  }

  /** A page belongs to the expansion iff it was listed, or it is the admitted partner of a listed page. */
  lemma ExpansionMember(s: set<int>, n: int, x: int)
    ensures x in Expansion(s, n) <==> x in s || (Partner(x) in s && Admitted(Partner(x), n))
  {
    if x in PartnerSet(s, n) {
      var q :| q in s && Admitted(q, n) && Partner(q) == x;
      PartnerInvolution(q);
    }
    if Partner(x) in s && Admitted(Partner(x), n) {
      PartnerInvolution(x);
      assert x in PartnerSet(s, n);
    }
  }

  /** Every page detected before expansion is still a colour page after it. */
  lemma ExpansionKeepsDetected(s: set<int>, n: int)
    ensures s <= Expansion(s, n)
  {
  }

  /** Expansion adds nothing to an empty list and never empties a non-empty one. */
  lemma ExpansionEmptyIff(s: set<int>, n: int)
    ensures Expansion(s, n) == {} <==> s == {}
  {
    if s != {} {
      HasElement(s);
      var p :| p in s;
      assert p in Expansion(s, n);
    }
  }

  /** Pages of the document expand to pages of the document: out-of-range partners are dropped. */
  lemma ExpansionWithinDocument(s: set<int>, n: int)
    requires s <= Range(n)
    ensures Expansion(s, n) <= Range(n)
  {
    forall x | x in Expansion(s, n)
      ensures x in Range(n)
    {
      ExpansionMember(s, n, x);
      if x !in s {
        var q := Partner(x);
        assert q in Range(n);
        PartnerInvolution(x);
        assert Partner(q) == x;
      }
    }
  }

  /**
   * The expansion is closed under pairing as split_pdf checks it: the
   * admitted partner of every page in the result is in the result.
   */
  lemma ExpansionClosedAdmitted(s: set<int>, n: int)
    ensures forall x :: x in Expansion(s, n) && Admitted(x, n) ==> Partner(x) in Expansion(s, n)
  {
    forall x | x in Expansion(s, n) && Admitted(x, n)
      ensures Partner(x) in Expansion(s, n)
    {
      ExpansionMember(s, n, x);
      ExpansionMember(s, n, Partner(x));
      PartnerInvolution(x);
    }
  }

  /** Both sides of every sheet touched by the result are in the result. */
  lemma ExpansionClosed(s: set<int>, n: int)
    ensures forall x :: x in Expansion(s, n) && 0 <= Partner(x) < n ==> Partner(x) in Expansion(s, n)
  {
    ExpansionClosedAdmitted(s, n);
  }

  /** A second expansion pass changes nothing. */
  lemma ExpansionIdempotent(s: set<int>, n: int)
    ensures Expansion(Expansion(s, n), n) == Expansion(s, n)
  {
    var e := Expansion(s, n);
    ExpansionClosedAdmitted(s, n);
    assert PartnerSet(e, n) <= e;
  }
}
