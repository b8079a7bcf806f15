/** The catalogue footer: it has no state of its own. It derives the page
    count, guards page requests before handing them to the catalogue,
    derives the Prev/Next buttons, and turns the items-per-page selection
    into a number. */
module Footer {
  import opened Types

  /** Number of pages, the ceiling of totalItems / itemsPerPage. */
  function TotalPages(totalItems: nat, itemsPerPage: nat): (pages: nat)
    requires itemsPerPage > 0
    ensures totalItems <= pages * itemsPerPage
    ensures pages > 0 ==> (pages - 1) * itemsPerPage < totalItems
    ensures pages == 0 <==> totalItems == 0
  {
    var q := (totalItems + itemsPerPage - 1) / itemsPerPage;
    var r := (totalItems + itemsPerPage - 1) % itemsPerPage;
    assert q * itemsPerPage + r == totalItems + itemsPerPage - 1;
    q
  }

  /** The page-change guard: a requested page is handed on to the catalogue
      (Some) or dropped (None). */
  function ForwardedPage(totalItems: nat, itemsPerPage: nat, pageNumber: int): (r: Option<int>)
    requires itemsPerPage > 0
    ensures r.Some? <==> 1 <= pageNumber <= TotalPages(totalItems, itemsPerPage)
    ensures r.Some? <==> 1 <= pageNumber && (pageNumber - 1) * itemsPerPage < totalItems
    ensures r.Some? ==> r.value == pageNumber
  {
    var total := TotalPages(totalItems, itemsPerPage);
    if 1 <= pageNumber && pageNumber - 1 < total then
      assert (pageNumber - 1) * itemsPerPage <= (total - 1) * itemsPerPage by {
        MulMonotone(pageNumber - 1, total - 1, itemsPerPage);
      }
      Some(pageNumber)
    else
      if 1 <= pageNumber then
        assert total * itemsPerPage <= (pageNumber - 1) * itemsPerPage by {
          MulMonotone(total, pageNumber - 1, itemsPerPage);
        }
        None
      else
        None
  }

  lemma MulMonotone(a: int, b: int, k: nat)
    requires a <= b
    ensures a * k <= b * k
  {
  }

  /** The page the Prev button asks for: the one just before. */
  function PrevTarget(currentPage: int): (target: int)
    ensures target < currentPage && currentPage - target == 1
  {
    currentPage - 1
  }

  /** The page the Next button asks for: the one just after. */
  function NextTarget(currentPage: int): (target: int)
    ensures target > currentPage && target - currentPage == 1
  {
    currentPage + 1
  }

  /** Prev is disabled on the first page only: from page 1 it would ask for
      page 0, and from any later page it asks for an actual page. */
  predicate PrevDisabled(currentPage: int): (disabled: bool)
    ensures disabled ==> PrevTarget(currentPage) < 1
    ensures !disabled && currentPage >= 1 ==> PrevTarget(currentPage) >= 1
  {
    currentPage == 1
  }

  /** Next is disabled on the last page and when there are no items; from
      a page of at least 1, a disabled Next never holds back a page the
      guard would accept. */
  predicate NextDisabled(totalItems: nat, itemsPerPage: nat, currentPage: int): (disabled: bool)
    requires itemsPerPage > 0
    ensures disabled && currentPage >= 1 ==> ForwardedPage(totalItems, itemsPerPage, NextTarget(currentPage)).None?
    ensures totalItems == 0 ==> disabled
  {
    currentPage == TotalPages(totalItems, itemsPerPage) || totalItems == 0
  }

  /** While the current page is the first page or an existing page, a
      button is disabled exactly when the guard would drop its request, so
      an enabled button always moves and a disabled one could not. */
  lemma ButtonsAgreeWithGuard(totalItems: nat, itemsPerPage: nat, currentPage: int)
    requires itemsPerPage > 0
    requires currentPage == 1 || 1 <= currentPage <= TotalPages(totalItems, itemsPerPage)
    ensures PrevDisabled(currentPage) <==> ForwardedPage(totalItems, itemsPerPage, PrevTarget(currentPage)).None?
    ensures NextDisabled(totalItems, itemsPerPage, currentPage)
            <==> ForwardedPage(totalItems, itemsPerPage, NextTarget(currentPage)).None?
  {
  }

  // ----- items per page -----

  /** The option values of the items-per-page select, in order. */
  const ItemsPerPageOptions: seq<string> := ["10", "20", "50", "100"]

  /** The page sizes those options stand for. */
  const PageSizes: seq<nat> := [10, 20, 50, 100]

  predicate IsDigit(c: char) { '0' <= c <= '9' }

  predicate AllDigits(s: string) { forall i :: 0 <= i < |s| ==> IsDigit(s[i]) }

  function DigitValue(c: char): (v: nat)
    requires IsDigit(c)
    ensures v < 10
  {
    (c as int) - ('0' as int)
  }

  function DigitChar(v: nat): (c: char)
    requires v < 10
    ensures IsDigit(c) && DigitValue(c) == v
  {
    ('0' as int + v) as char
  }

  /** The longest prefix of `s` made of decimal digits. */
  function DigitPrefix(s: string): (p: string)
    ensures p <= s && AllDigits(p)
    ensures |p| < |s| ==> !IsDigit(s[|p|])
  {
    if s == [] || !IsDigit(s[0]) then [] else [s[0]] + DigitPrefix(s[1..])
  }

  /** The value of a string of decimal digits, most significant first. */
  function DigitsValue(s: string): nat
    requires AllDigits(s)
  {
    if s == [] then 0 else 10 * DigitsValue(s[..|s| - 1]) + DigitValue(s[|s| - 1])
  }

  /** parseInt(s, 10) on strings that start with a digit run: the value of
      the leading digits, or None (NaN) when there are none. */
  function ParseInt10(s: string): (n: Option<nat>)
    ensures n.None? <==> s == [] || !IsDigit(s[0])
    ensures AllDigits(s) && s != [] ==> n == Some(DigitsValue(s))
  {
    DigitPrefixOfDigitsWhenAll(s);
    var p := DigitPrefix(s);
    if p == [] then None else Some(DigitsValue(p))
  }

  /** The decimal numeral of n, without leading zeros: the independent
      reference for ParseInt10. */
  function DecimalString(n: nat): (s: string)
    ensures |s| > 0 && AllDigits(s)
  {
    (if n < 10 then [] else DecimalString(n / 10)) + [DigitChar(n % 10)]
  }

  lemma DigitPrefixOfDigitsWhenAll(s: string)
    ensures AllDigits(s) ==> DigitPrefix(s) == s
  {
    if AllDigits(s) {
      DigitPrefixOfDigits(s);
    }
  }

  lemma {:induction false} DigitPrefixOfDigits(s: string)
    requires AllDigits(s)
    ensures DigitPrefix(s) == s
  {
    if s != [] {
      DigitPrefixOfDigits(s[1..]);
    }
  }

  lemma {:induction false} DigitsValueOfDecimal(n: nat)
    ensures DigitsValue(DecimalString(n)) == n
  {
    var s := DecimalString(n);
    var head := if n < 10 then [] else DecimalString(n / 10);
    assert s == head + [DigitChar(n % 10)];
    assert s[..|s| - 1] == head;
    assert DigitValue(s[|s| - 1]) == n % 10;
    if n >= 10 {
      DigitsValueOfDecimal(n / 10);
      assert DigitsValue(head) == n / 10;
    } else {
      assert DigitsValue(head) == 0;
    }
    assert DigitsValue(s) == 10 * DigitsValue(head) + n % 10;
  }

  /** parseInt reads back every decimal numeral as the number it denotes. */
  lemma ParseDecimalRoundTrip(n: nat)
    ensures ParseInt10(DecimalString(n)) == Some(n)
  {
    DigitPrefixOfDigits(DecimalString(n));
    DigitsValueOfDecimal(n);
  }

  /** The items-per-page handler: the chosen option parsed base 10. */
  function ItemsPerPageChoice(option: string): (k: Option<nat>)
    requires option in ItemsPerPageOptions
    ensures k.Some? && k.value in PageSizes && k.value > 0
    ensures forall i :: 0 <= i < |ItemsPerPageOptions| && option == ItemsPerPageOptions[i] ==> k.value == PageSizes[i]
  {
    OptionsParseToPageSizes();
    ParseInt10(option)
  }

  /** Each option of the select parses to the page size it is labelled with. */
  lemma OptionsParseToPageSizes()
    ensures |ItemsPerPageOptions| == |PageSizes|
    ensures forall i :: 0 <= i < |ItemsPerPageOptions| ==> ParseInt10(ItemsPerPageOptions[i]) == Some(PageSizes[i])
  {
    forall i | 0 <= i < |ItemsPerPageOptions|
      ensures ParseInt10(ItemsPerPageOptions[i]) == Some(PageSizes[i])
    {
      assert ItemsPerPageOptions[i] == DecimalString(PageSizes[i]);
      ParseDecimalRoundTrip(PageSizes[i]);
    }
  }
}
