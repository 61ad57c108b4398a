/**
 * The paginated result of dto/page_result.go. Go's `/` and `%` on `int`
 * truncate toward zero, unlike Dafny's Euclidean operators, so they are
 * written out as GoQuo and GoRem.
 */
module PageResults {

  /** The magnitude of `x`. */
  function Abs(x: int): (m: int)
    ensures m >= 0 && (m == x || m == -x)
  {
    if x >= 0 then x else -x
  }

  /**
   * Go's `a / b`: the quotient truncated toward zero, so that what is left
   * over lies strictly within one divisor of zero and takes the sign of `a`.
   */
  function GoQuo(a: int, b: int): (q: int)
    requires b != 0
    ensures a >= 0 ==> 0 <= a - q * b < Abs(b)
    ensures a < 0 ==> -Abs(b) < a - q * b <= 0
  {
    var n, d := Abs(a), Abs(b);
    var m := n / d;
    EuclideanRemainder(n, d);
    MulSigns(m, d);
    if (a >= 0) == (b > 0) then m else -m
  }

  /** What Euclidean division of naturals leaves over is below the divisor. */
  lemma EuclideanRemainder(n: nat, d: nat)
    requires d > 0
    ensures 0 <= n - (n / d) * d < d
  {
  }

  /** Sign rules for a product. */
  lemma MulSigns(m: int, d: int)
    ensures (-m) * (-d) == m * d && (-m) * d == -(m * d) && m * (-d) == -(m * d)
  {
  }

  /** Go's `a % b`: smaller than the divisor in magnitude, with the sign of `a`. */
  function GoRem(a: int, b: int): (r: int)
    requires b != 0
    ensures a == GoQuo(a, b) * b + r
    ensures Abs(r) < Abs(b)
    ensures a >= 0 ==> r >= 0
    ensures a < 0 ==> r <= 0
  {
    a - GoQuo(a, b) * b
  }

  datatype PageResult<T> = PageResult(
    items: seq<T>,
    total: int,
    page: int,
    pageSize: int,
    totalPages: int)

  /**
   * NewPageResult. Go panics on a zero divisor, so `pageSize != 0` is what the
   * code demands of its callers.
   */
  function NewPageResult<T>(items: seq<T>, total: int, page: int, pageSize: int): (r: PageResult<T>)
    requires pageSize != 0
    ensures r.items == items && r.total == total && r.page == page && r.pageSize == pageSize
    ensures total >= 0 && pageSize > 0 ==> r.totalPages == (total + pageSize - 1) / pageSize
  {
    var quotient := GoQuo(total, pageSize);
    var totalPages := if GoRem(total, pageSize) > 0 then quotient + 1 else quotient;
    CeilingDivision(total, pageSize);
    PageResult(items, total, page, pageSize, totalPages)
  }

  /** The quotient-plus-one-on-remainder rule is ceiling division for non-negative totals. */
  lemma CeilingDivision(total: int, pageSize: int)
    requires pageSize != 0
    ensures total >= 0 && pageSize > 0 ==>
      (if GoRem(total, pageSize) > 0 then GoQuo(total, pageSize) + 1 else GoQuo(total, pageSize))
        == (total + pageSize - 1) / pageSize
  {
    if total >= 0 && pageSize > 0 {
      var q, r := total / pageSize, total % pageSize;
      assert total == q * pageSize + r;
      assert GoRem(total, pageSize) == r;
      if r > 0 {
        DivisionUnique(total + pageSize - 1, pageSize, q + 1, r - 1);
      } else {
        DivisionUnique(total + pageSize - 1, pageSize, q, pageSize - 1);
      }
    }
  }

  /** Euclidean division is determined by quotient and remainder. */
  lemma DivisionUnique(a: int, d: int, q: int, r: int)
    requires d > 0 && 0 <= r < d && a == q * d + r
    ensures a / d == q
  {
    var q' := a / d;
    assert a == q' * d + a % d;
    if q' < q {
      MulMonotone(q' + 1, q, d);
    } else if q < q' {
      MulMonotone(q + 1, q', d);
    }
  }

  /** Multiplying by a positive number keeps order. */
  lemma MulMonotone(x: int, y: int, d: int)
    requires x <= y && d > 0
    ensures x * d <= y * d && (x + 1) * d == x * d + d
  {
    var k := y - x;
    assert y * d == x * d + k * d;
  }

  /**
   * The page count covers the total and has no empty trailing page: enough
   * pages for every item, one page fewer would not be enough, and no items
   * means no pages.
   */
  lemma TotalPagesBounds<T>(items: seq<T>, total: int, page: int, pageSize: int)
    requires total >= 0 && pageSize > 0
    ensures NewPageResult(items, total, page, pageSize).totalPages * pageSize >= total
    ensures total > 0 ==> (NewPageResult(items, total, page, pageSize).totalPages - 1) * pageSize < total
    ensures total == 0 <==> NewPageResult(items, total, page, pageSize).totalPages == 0
  {
    var n := NewPageResult(items, total, page, pageSize).totalPages;
    var q, r := total / pageSize, total % pageSize;
    assert total == q * pageSize + r;
    if r > 0 {
      DivisionUnique(total + pageSize - 1, pageSize, q + 1, r - 1);
      assert n == q + 1;
      assert n * pageSize == q * pageSize + pageSize;
    } else {
      DivisionUnique(total + pageSize - 1, pageSize, q, pageSize - 1);
      assert n == q;
      if total > 0 {
        assert q > 0;
      }
    }
  }

  /** Fifteen records at ten per page make two pages. */
  lemma FifteenRecordsMakeTwoPages<T>(items: seq<T>)
    ensures NewPageResult(items, 15, 1, 10).totalPages == 2
  {
  }
}
