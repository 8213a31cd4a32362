/**
 * Polynomials as linked lists of terms: addition by an ordered merge that
 * drops cancelled degrees, and multiplication as repeated addition.
 *
 * A linked list is modelled by the sequence of its terms from the front
 * node; the empty sequence stands for the null list. The lists are read in
 * ascending order of degree from the front.
 */
module Polynomial {

  /** One term coeff * x^degree. Coefficients are exact reals. */
  datatype Term = Term(coeff: real, degree: int)

  type Poly = seq<Term>

  /** Degrees strictly increase from the front of the list. */
  ghost predicate Ascending(p: Poly) {
    forall j, k :: 0 <= j < k < |p| ==> p[j].degree < p[k].degree
  }

  /** No term has coefficient zero. */
  ghost predicate NoZeroTerms(p: Poly) {
    forall k :: 0 <= k < |p| ==> p[k].coeff != 0.0
  }

  /** The polynomial's coefficient of x^d: the sum of the coefficients of its terms of degree d. */
  ghost function Coeff(p: Poly, d: int): real {
    if p == [] then 0.0
    else (if p[0].degree == d then p[0].coeff else 0.0) + Coeff(p[1..], d)
  }

  ghost predicate HasDegree(p: Poly, d: int) {
    exists k :: 0 <= k < |p| && p[k].degree == d
  }

  /**
   * The sum of two polynomials, merging the two lists by degree. Equal
   * degrees are combined, and left out when their coefficients cancel.
   */
  function Add(poly1: Poly, poly2: Poly): (r: Poly)
    ensures poly1 == [] ==> r == poly2
    ensures poly2 == [] ==> r == poly1
    ensures |r| <= |poly1| + |poly2|
    decreases |poly1| + |poly2|
  {
    if poly1 == [] && poly2 == [] then []
    else if poly1 == [] then [poly2[0]] + poly2[1..]
    else if poly2 == [] then [poly1[0]] + poly1[1..]
    else if poly1[0].degree == poly2[0].degree then
      if poly1[0].coeff + poly2[0].coeff == 0.0 then Add(poly1[1..], poly2[1..])
      else [Term(poly1[0].coeff + poly2[0].coeff, poly1[0].degree)] + Add(poly1[1..], poly2[1..])
    else if poly1[0].degree < poly2[0].degree then
      [poly1[0]] + Add(poly1[1..], poly2)
    else
      [poly2[0]] + Add(poly1, poly2[1..])
  }

  /** Every coefficient of the sum is the sum of the two coefficients. */
  lemma {:induction false} AddCoeff(poly1: Poly, poly2: Poly, d: int)
    ensures Coeff(Add(poly1, poly2), d) == Coeff(poly1, d) + Coeff(poly2, d)
    decreases |poly1| + |poly2|
  {
    if poly1 == [] || poly2 == [] {
    } else if poly1[0].degree == poly2[0].degree {
      AddCoeff(poly1[1..], poly2[1..], d);
      if poly1[0].coeff + poly2[0].coeff != 0.0 {
        var t := Term(poly1[0].coeff + poly2[0].coeff, poly1[0].degree);
        assert ([t] + Add(poly1[1..], poly2[1..]))[1..] == Add(poly1[1..], poly2[1..]);
      }
    } else if poly1[0].degree < poly2[0].degree {
      AddCoeff(poly1[1..], poly2, d);
      assert ([poly1[0]] + Add(poly1[1..], poly2))[1..] == Add(poly1[1..], poly2);
    } else {
      AddCoeff(poly1, poly2[1..], d);
      assert ([poly2[0]] + Add(poly1, poly2[1..]))[1..] == Add(poly1, poly2[1..]);
    }
  }

  /** Every degree of the sum is a degree of one of the inputs. */
  lemma {:induction false} AddDegrees(poly1: Poly, poly2: Poly)
    ensures forall k :: 0 <= k < |Add(poly1, poly2)| ==>
      HasDegree(poly1, Add(poly1, poly2)[k].degree) || HasDegree(poly2, Add(poly1, poly2)[k].degree)
    decreases |poly1| + |poly2|
  {
    var r := Add(poly1, poly2);
    if poly1 == [] || poly2 == [] {
    } else if poly1[0].degree == poly2[0].degree {
      AddDegrees(poly1[1..], poly2[1..]);
      var s := Add(poly1[1..], poly2[1..]);
      forall k | 0 <= k < |r| ensures HasDegree(poly1, r[k].degree) || HasDegree(poly2, r[k].degree) {
        if poly1[0].coeff + poly2[0].coeff == 0.0 {
          assert r[k] == s[k];
          if HasDegree(poly1[1..], s[k].degree) {
            var j :| 0 <= j < |poly1[1..]| && poly1[1..][j].degree == s[k].degree;
            assert poly1[j + 1].degree == r[k].degree;
          } else {
            var j :| 0 <= j < |poly2[1..]| && poly2[1..][j].degree == s[k].degree;
            assert poly2[j + 1].degree == r[k].degree;
          }
        } else if k == 0 {
          assert poly1[0].degree == r[k].degree;
        } else {
          assert r[k] == s[k - 1];
          if HasDegree(poly1[1..], s[k - 1].degree) {
            var j :| 0 <= j < |poly1[1..]| && poly1[1..][j].degree == s[k - 1].degree;
            assert poly1[j + 1].degree == r[k].degree;
          } else {
            var j :| 0 <= j < |poly2[1..]| && poly2[1..][j].degree == s[k - 1].degree;
            assert poly2[j + 1].degree == r[k].degree;
          }
        }
      }
    } else if poly1[0].degree < poly2[0].degree {
      AddDegrees(poly1[1..], poly2);
      var s := Add(poly1[1..], poly2);
      forall k | 0 <= k < |r| ensures HasDegree(poly1, r[k].degree) || HasDegree(poly2, r[k].degree) {
        if k == 0 {
          assert poly1[0].degree == r[k].degree;
        } else {
          assert r[k] == s[k - 1];
          if HasDegree(poly1[1..], s[k - 1].degree) {
            var j :| 0 <= j < |poly1[1..]| && poly1[1..][j].degree == s[k - 1].degree;
            assert poly1[j + 1].degree == r[k].degree;
          }
        }
      }
    } else {
      AddDegrees(poly1, poly2[1..]);
      var s := Add(poly1, poly2[1..]);
      forall k | 0 <= k < |r| ensures HasDegree(poly1, r[k].degree) || HasDegree(poly2, r[k].degree) {
        if k == 0 {
          assert poly2[0].degree == r[k].degree;
        } else {
          assert r[k] == s[k - 1];
          if HasDegree(poly2[1..], s[k - 1].degree) {
            var j :| 0 <= j < |poly2[1..]| && poly2[1..][j].degree == s[k - 1].degree;
            assert poly2[j + 1].degree == r[k].degree;
          }
        }
      }
    }
  }

  /** A term of degree lower than every degree of an ascending list may be put in front of it. */
  lemma ConsAscending(t: Term, p: Poly, lower: Poly, upper: Poly)
    requires Ascending(p)
    requires forall k :: 0 <= k < |p| ==> HasDegree(lower, p[k].degree) || HasDegree(upper, p[k].degree)
    requires forall k :: 0 <= k < |lower| ==> t.degree < lower[k].degree
    requires forall k :: 0 <= k < |upper| ==> t.degree < upper[k].degree
    ensures Ascending([t] + p)
  {
    forall k | 0 <= k < |p| ensures t.degree < p[k].degree {
      if HasDegree(lower, p[k].degree) {
        var j :| 0 <= j < |lower| && lower[j].degree == p[k].degree;
      } else {
        var j :| 0 <= j < |upper| && upper[j].degree == p[k].degree;
      }
    }
  }

  /** The sum of two ascending lists is ascending. */
  lemma {:induction false} AddAscending(poly1: Poly, poly2: Poly)
    requires Ascending(poly1) && Ascending(poly2)
    ensures Ascending(Add(poly1, poly2))
    decreases |poly1| + |poly2|
  {
    if poly1 == [] || poly2 == [] {
    } else if poly1[0].degree == poly2[0].degree {
      AddAscending(poly1[1..], poly2[1..]);
      AddDegrees(poly1[1..], poly2[1..]);
      if poly1[0].coeff + poly2[0].coeff != 0.0 {
        ConsAscending(Term(poly1[0].coeff + poly2[0].coeff, poly1[0].degree),
          Add(poly1[1..], poly2[1..]), poly1[1..], poly2[1..]);
      }
    } else if poly1[0].degree < poly2[0].degree {
      AddAscending(poly1[1..], poly2);
      AddDegrees(poly1[1..], poly2);
      ConsAscending(poly1[0], Add(poly1[1..], poly2), poly1[1..], poly2);
    } else {
      AddAscending(poly1, poly2[1..]);
      AddDegrees(poly1, poly2[1..]);
      ConsAscending(poly2[0], Add(poly1, poly2[1..]), poly1, poly2[1..]);
    }
  }

  /** Adding lists without zero terms never produces a zero term: cancelled degrees are omitted. */
  lemma {:induction false} AddNoZeroTerms(poly1: Poly, poly2: Poly)
    requires NoZeroTerms(poly1) && NoZeroTerms(poly2)
    ensures NoZeroTerms(Add(poly1, poly2))
    decreases |poly1| + |poly2|
  {
    if poly1 == [] || poly2 == [] {
    } else if poly1[0].degree == poly2[0].degree {
      AddNoZeroTerms(poly1[1..], poly2[1..]);
    } else if poly1[0].degree < poly2[0].degree {
      AddNoZeroTerms(poly1[1..], poly2);
    } else {
      AddNoZeroTerms(poly1, poly2[1..]);
    }
  }

  /** In an ascending list without zero terms, a degree is present iff its coefficient is nonzero. */
  lemma {:induction false} CanonicalCoeff(p: Poly, d: int)
    requires Ascending(p) && NoZeroTerms(p)
    ensures HasDegree(p, d) <==> Coeff(p, d) != 0.0
    ensures forall k :: 0 <= k < |p| && p[k].degree == d ==> Coeff(p, d) == p[k].coeff
  {
    if p != [] {
      CanonicalCoeff(p[1..], d);
      if p[0].degree == d {
        assert !HasDegree(p[1..], d);
      } else if HasDegree(p, d) {
        var k :| 0 <= k < |p| && p[k].degree == d;
        assert p[1..][k - 1].degree == d;
      } else {
        assert !HasDegree(p[1..], d);
      }
    }
  }

  /**
   * For lists in canonical form (ascending, no zero terms) the sum is in
   * canonical form, holds exactly the degrees whose coefficients do not
   * cancel, and each with the sum of the two coefficients.
   */
  lemma AddCanonical(poly1: Poly, poly2: Poly, d: int)
    requires Ascending(poly1) && NoZeroTerms(poly1)
    requires Ascending(poly2) && NoZeroTerms(poly2)
    ensures Ascending(Add(poly1, poly2)) && NoZeroTerms(Add(poly1, poly2))
    ensures HasDegree(Add(poly1, poly2), d) <==> Coeff(poly1, d) + Coeff(poly2, d) != 0.0
  {
    AddAscending(poly1, poly2);
    AddNoZeroTerms(poly1, poly2);
    AddCoeff(poly1, poly2, d);
    CanonicalCoeff(Add(poly1, poly2), d);
  }

  /** The list of the products of term t with each term of poly2, in the order of poly2. */
  function MultiplyHelper(t: Term, poly2: Poly): (r: Poly)
    ensures |r| == |poly2|
    ensures forall k :: 0 <= k < |r| ==>
      r[k] == Term(t.coeff * poly2[k].coeff, t.degree + poly2[k].degree)
  {
    if poly2 == [] then []
    else [Term(t.coeff * poly2[0].coeff, t.degree + poly2[0].degree)] + MultiplyHelper(t, poly2[1..])
  }

  lemma NonzeroProduct(a: real, b: real)
    requires a != 0.0 && b != 0.0
    ensures a * b != 0.0
  {
    assert (a * b) / b == a;
  }

  /** Multiplying by one term keeps the list ascending and, for a nonzero term, free of zero terms. */
  lemma MultiplyHelperCanonical(t: Term, poly2: Poly)
    ensures Ascending(poly2) ==> Ascending(MultiplyHelper(t, poly2))
    ensures t.coeff != 0.0 && NoZeroTerms(poly2) ==> NoZeroTerms(MultiplyHelper(t, poly2))
  {
    var r := MultiplyHelper(t, poly2);
    if t.coeff != 0.0 && NoZeroTerms(poly2) {
      forall k | 0 <= k < |r| ensures r[k].coeff != 0.0 {
        NonzeroProduct(t.coeff, poly2[k].coeff);
      }
    }
  }

  /** Multiplying by t scales the coefficient of x^(d - degree of t) into that of x^d. */
  lemma {:induction false} MultiplyHelperCoeff(t: Term, poly2: Poly, d: int)
    ensures Coeff(MultiplyHelper(t, poly2), d) == t.coeff * Coeff(poly2, d - t.degree)
  {
    if poly2 != [] {
      MultiplyHelperCoeff(t, poly2[1..], d);
      var r := MultiplyHelper(t, poly2);
      assert r[1..] == MultiplyHelper(t, poly2[1..]);
      var c0 := if poly2[0].degree == d - t.degree then poly2[0].coeff else 0.0;
      assert Coeff(poly2, d - t.degree) == c0 + Coeff(poly2[1..], d - t.degree);
      assert t.coeff * (c0 + Coeff(poly2[1..], d - t.degree))
          == t.coeff * c0 + t.coeff * Coeff(poly2[1..], d - t.degree);
    }
  }

  /**
   * The left fold of Add over the lists MultiplyHelper(t, poly2), for each
   * term t of poly1 in order, starting from the accumulator acc.
   */
  ghost function FoldProducts(acc: Poly, poly1: Poly, poly2: Poly): Poly
    decreases |poly1|
  {
    if poly1 == [] then acc
    else FoldProducts(Add(acc, MultiplyHelper(poly1[0], poly2)), poly1[1..], poly2)
  }

  /**
   * The coefficient of x^d in poly1 * poly2: the sum, over the terms t of
   * poly1, of the coefficient of x^d in t * poly2 (which MultiplyHelperCoeff
   * shows to be t.coeff times poly2's coefficient of x^(d - t.degree)).
   */
  ghost function ProductCoeff(poly1: Poly, poly2: Poly, d: int): real
    decreases |poly1|
  {
    if poly1 == [] then 0.0
    else Coeff(MultiplyHelper(poly1[0], poly2), d) + ProductCoeff(poly1[1..], poly2, d)
  }

  /** The fold computes the product: its coefficients are those of acc plus those of poly1 * poly2. */
  lemma {:induction false} FoldProductsCoeff(acc: Poly, poly1: Poly, poly2: Poly, d: int)
    ensures Coeff(FoldProducts(acc, poly1, poly2), d) == Coeff(acc, d) + ProductCoeff(poly1, poly2, d)
    decreases |poly1|
  {
    if poly1 != [] {
      var h := MultiplyHelper(poly1[0], poly2);
      var acc' := Add(acc, h);
      FoldProductsCoeff(acc', poly1[1..], poly2, d);
      AddCoeff(acc, h, d);
    }
  }

  /** The fold keeps canonical form: ascending lists without zero terms. */
  lemma {:induction false} FoldProductsCanonical(acc: Poly, poly1: Poly, poly2: Poly)
    ensures Ascending(acc) && Ascending(poly2) ==> Ascending(FoldProducts(acc, poly1, poly2))
    ensures NoZeroTerms(acc) && NoZeroTerms(poly1) && NoZeroTerms(poly2) ==>
      NoZeroTerms(FoldProducts(acc, poly1, poly2))
    decreases |poly1|
  {
    if poly1 != [] {
      var h := MultiplyHelper(poly1[0], poly2);
      MultiplyHelperCanonical(poly1[0], poly2);
      if Ascending(acc) && Ascending(poly2) {
        AddAscending(acc, h);
      }
      if NoZeroTerms(acc) && NoZeroTerms(poly1) && NoZeroTerms(poly2) {
        AddNoZeroTerms(acc, h);
      }
      FoldProductsCanonical(Add(acc, h), poly1[1..], poly2);
    }
  }

  /** Folding over an empty second factor leaves the accumulator as it is. */
  lemma {:induction false} FoldProductsEmpty(acc: Poly, poly1: Poly)
    ensures FoldProducts(acc, poly1, []) == acc
    decreases |poly1|
  {
    if poly1 != [] {
      FoldProductsEmpty(Add(acc, MultiplyHelper(poly1[0], [])), poly1[1..]);
    }
  }

  /**
   * The product of two polynomials: for each term of poly1, from the
   * front, the accumulator becomes its sum with that term times poly2.
   */
  method Multiply(poly1: Poly, poly2: Poly) returns (a: Poly)
    ensures a == FoldProducts([], poly1, poly2)
    ensures poly1 == [] || poly2 == [] ==> a == []
    ensures forall d :: Coeff(a, d) == ProductCoeff(poly1, poly2, d)
    ensures Ascending(poly2) ==> Ascending(a)
    ensures NoZeroTerms(poly1) && NoZeroTerms(poly2) ==> NoZeroTerms(a)
  {
    a := [];
    var rest := poly1;
    while rest != []
      invariant FoldProducts(a, rest, poly2) == FoldProducts([], poly1, poly2)
      decreases |rest|
    {
      a := Add(a, MultiplyHelper(rest[0], poly2));
      rest := rest[1..];
    }
    if poly2 == [] {
      FoldProductsEmpty([], poly1);
    }
    forall d ensures Coeff(a, d) == ProductCoeff(poly1, poly2, d) {
      FoldProductsCoeff([], poly1, poly2, d);
    }
    FoldProductsCanonical([], poly1, poly2);
  }
}
