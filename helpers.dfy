/** The pure helpers of the server: the text of a duration, the page of a
    list shown to a client, and the clean-up of user-supplied text. */
module Helpers {
  import opened JsValues
  import opened JsArrays

  // ---------------------------------------------------------------------------
  // formatDuration

  /** Hours, minutes and seconds of a non-negative number of seconds, computed
      as `Math.floor(seconds / 3600)`, `Math.floor((seconds % 3600) / 60)` and
      `seconds % 60` (on non-negative operands JavaScript's `%` agrees with
      Dafny's). */
  function Units(seconds: nat): (u: (nat, nat, nat))
    ensures u.0 * 3600 + u.1 * 60 + u.2 == seconds
    ensures u.1 < 60 && u.2 < 60
  {
    var hours := seconds / 3600;
    var rest := seconds % 3600;
    var minutes := rest / 60;
    var secs := seconds % 60;
    assert seconds == hours * 3600 + rest;
    assert rest == minutes * 60 + rest % 60;
    assert seconds == (hours * 60 + minutes) * 60 + rest % 60;
    assert secs == rest % 60;
    (hours, minutes, secs)
  }

  /** The decomposition into hours, minutes below 60 and seconds below 60 is
      the only one there is. */
  lemma UnitsUnique(seconds: nat, h: nat, m: nat, s: nat)
    requires h * 3600 + m * 60 + s == seconds && m < 60 && s < 60
    ensures Units(seconds) == (h, m, s)
  {
    var u := Units(seconds);
    var a, b := h * 60 + m, u.0 * 60 + u.1;
    if a < b { assert false; } else if b < a { assert false; }
    assert a * 60 + s == b * 60 + u.2;
    assert m == a % 60 && h == a / 60;
    assert u.1 == b % 60 && u.0 == b / 60;
  }

  /** `formatDuration(seconds)` for a whole number of seconds. Under a minute
      (negative amounts included) it is `"<seconds>s"`; from an hour on it is
      `"<h>h <m>m"`; otherwise `"<m>m <s>s"`, or `"<m>m"` on a whole minute. */
  function FormatDuration(seconds: int): (r: string)
    ensures seconds < 60 ==> r == IntToString(seconds) + ['s']
    ensures seconds >= 3600 ==> r == IntToString(seconds / 3600) + ['h', ' '] + IntToString(seconds % 3600 / 60) + ['m']
  {
    if seconds < 60 then IntToString(seconds) + ['s']
    else
      var u := Units(seconds);
      if u.0 > 0 then IntToString(u.0) + ['h', ' '] + IntToString(u.1) + ['m']
      else if u.2 > 0 then IntToString(u.1) + ['m', ' '] + IntToString(u.2) + ['s']
      else IntToString(u.1) + ['m']
  }

  /** Between a minute and an hour the text shows the minutes and, unless it
      is a whole minute, the seconds. */
  lemma FormatDurationMinutes(seconds: int)
    requires 60 <= seconds < 3600
    ensures seconds % 60 > 0 ==>
      FormatDuration(seconds) == IntToString(seconds / 60) + ['m', ' '] + IntToString(seconds % 60) + ['s']
    ensures seconds % 60 == 0 ==> FormatDuration(seconds) == IntToString(seconds / 60) + ['m']
  {
    var u := Units(seconds);
    UnitsUnique(seconds, 0, seconds / 60, seconds % 60);
  }

  /** From an hour on the seconds are not shown: rounding down to the whole
      minute gives the same text. */
  lemma FormatDurationDropsSeconds(seconds: int)
    requires seconds >= 3600
    ensures FormatDuration(seconds - seconds % 60) == FormatDuration(seconds)
  {
    var t := seconds - seconds % 60;
    var u := Units(seconds);
    UnitsUnique(t, u.0, u.1, 0);
  }

  /** The characters of a rendered number are digits and minus signs. */
  lemma IntToStringChars(n: int)
    ensures forall i :: 0 <= i < |IntToString(n)| ==> IsDigit(IntToString(n)[i]) || IntToString(n)[i] == '-'
  {
    var d := NatToString(if n < 0 then -n else n);
    assert AllDigits(d);
  }

  /** Two texts `<x><unit>` and `<y><unit>` with numbers `x`, `y` are equal
      only for equal numbers. */
  lemma NumberWithSuffix(x: int, y: int, a: string, b: string)
    requires IntToString(x) + a == IntToString(y) + b
    requires |a| == |b|
    ensures x == y && a == b
  {
    var s := IntToString(x) + a;
    assert IntToString(x) == s[..|s| - |a|];
    assert IntToString(y) == s[..|s| - |b|];
    IntToStringInjective(x, y);
    assert a == s[|s| - |a|..];
  }

  /** The position of the first `c` in `s`. */
  function FirstIndex(s: string, c: char): (k: nat)
    requires c in s
    ensures k < |s| && s[k] == c
  {
    if s[0] == c then 0 else FirstIndex(s[1..], c) + 1
  }

  lemma {:induction false} FirstIndexAt(s: string, c: char, k: nat)
    requires k < |s| && s[k] == c && forall i :: 0 <= i < k ==> s[i] != c
    ensures FirstIndex(s, c) == k
  {
    if k > 0 {
      FirstIndexAt(s[1..], c, k - 1);
    }
  }

  /** `"<x>m <y>s"` determines both numbers: the first `m` ends the minutes. */
  lemma MinutesAndSeconds(x: int, y: int, x': int, y': int)
    requires IntToString(x) + ['m', ' '] + IntToString(y) + ['s'] == IntToString(x') + ['m', ' '] + IntToString(y') + ['s']
    ensures x == x' && y == y'
  {
    var s := IntToString(x) + ['m', ' '] + IntToString(y) + ['s'];
    var p, q := IntToString(x), IntToString(x');
    IntToStringChars(x);
    IntToStringChars(x');
    FirstIndexAt(s, 'm', |p|);
    FirstIndexAt(s, 'm', |q|);
    assert p == s[..|p|] == q;
    IntToStringInjective(x, x');
    ConcatAssoc(p + ['m', ' '], IntToString(y), ['s']);
    ConcatAssoc(q + ['m', ' '], IntToString(y'), ['s']);
    CancelPrefix(p + ['m', ' '], IntToString(y) + ['s'], IntToString(y') + ['s']);
    NumberWithSuffix(y, y', ['s'], ['s']);
  }

  /** Below an hour the text has an `m` exactly from a minute on, and it ends
      in `m` exactly on whole minutes. */
  lemma FormatDurationShape(a: int)
    requires a < 3600
    ensures 'm' in FormatDuration(a) <==> a >= 60
    ensures FormatDuration(a)[|FormatDuration(a)| - 1] == if a >= 60 && a % 60 == 0 then 'm' else 's'
  {
    var r := FormatDuration(a);
    if a < 60 {
      IntToStringChars(a);
      assert forall i :: 0 <= i < |r| ==> r[i] != 'm' by {
        forall i | 0 <= i < |r| ensures r[i] != 'm' {
          if i < |r| - 1 { assert r[i] == IntToString(a)[i]; }
        }
      }
    } else {
      FormatDurationMinutes(a);
      assert r[|IntToString(a / 60)|] == 'm';
    }
  }

  /** Below an hour no detail is lost: different durations read differently. */
  lemma FormatDurationInjectiveBelowHour(a: int, b: int)
    requires a < 3600 && b < 3600
    requires FormatDuration(a) == FormatDuration(b)
    ensures a == b
  {
    FormatDurationShape(a);
    FormatDurationShape(b);
    if a < 60 && b < 60 {
      NumberWithSuffix(a, b, ['s'], ['s']);
    } else if a >= 60 && b >= 60 {
      FormatDurationMinutes(a);
      FormatDurationMinutes(b);
      if a % 60 > 0 && b % 60 > 0 {
        MinutesAndSeconds(a / 60, a % 60, b / 60, b % 60);
      } else if a % 60 == 0 && b % 60 == 0 {
        NumberWithSuffix(a / 60, b / 60, ['m'], ['m']);
        assert a == a / 60 * 60 && b == b / 60 * 60;
      }
    }
  }

  // ---------------------------------------------------------------------------
  // paginate

  /** `Math.ceil(n / limit)`: a whole number, or `Infinity` (a positive count
      over a zero limit), or `NaN` (`0 / 0`). */
  datatype PageCount = Finite(n: int) | Infinite | NaN

  /** `totalPages`. A negative limit makes the quotient negative, and its
      ceiling is minus the floor of `n / -limit`. */
  function TotalPages(n: nat, limit: int): (t: PageCount)
    ensures limit > 0 ==> t.Finite? && t.n >= 0 && (t.n - 1) * limit < n <= t.n * limit
    ensures limit == 0 ==> t == (if n == 0 then NaN else Infinite)
  {
    if limit > 0 then
      var q := (n + limit - 1) / limit;
      assert q * limit <= n + limit - 1 < (q + 1) * limit;
      Finite(q)
    else if limit == 0 then (if n == 0 then NaN else Infinite)
    else Finite(0 - n / (0 - limit))
  }

  /** `page < totalPages`: no number is below `NaN`, all are below `Infinity`. */
  predicate PageBelow(page: int, t: PageCount) {
    match t
    case Finite(n) => page < n
    case Infinite => true
    case NaN => false
  }

  datatype Pagination = Pagination(
    currentPage: int,
    totalPages: PageCount,
    totalItems: nat,
    itemsPerPage: int,
    hasNextPage: bool,
    hasPrevPage: bool)

  datatype Paginated<T> = Paginated(data: seq<T>, pagination: Pagination)

  /** `paginate(items, page, limit)` with whole-number arguments. Page `page`
      starts at `(page - 1) * limit`; `slice` reads negative indices from the
      end of the items. */
  function Paginate<T>(items: seq<T>, page: int, limit: int): (r: Paginated<T>)
    ensures r.pagination.totalItems == |items| && r.pagination.currentPage == page
    ensures r.pagination.itemsPerPage == limit
    ensures r.pagination.hasPrevPage <==> page > 1
    ensures r.pagination.hasNextPage <==> PageBelow(page, TotalPages(|items|, limit))
    ensures |r.data| <= |items| && forall x :: x in r.data ==> x in items
  {
    var offset := (page - 1) * limit;
    var total := TotalPages(|items|, limit);
    Paginated(Slice(items, offset, offset + limit),
              Pagination(page, total, |items|, limit, PageBelow(page, total), page > 1))
  }

  /** `paginate` called without page and limit. The first ensures ties it to
      the general `Paginate`, so every lemma about that applies; the others say
      what the defaults give. */
  function PaginateDefault<T>(items: seq<T>): (r: Paginated<T>)
    ensures r == Paginate(items, 1, 10)
    ensures |r.data| == if |items| < 10 then |items| else 10
    ensures r.data == items[..if |items| < 10 then |items| else 10]
    ensures r.pagination.currentPage == 1 && r.pagination.itemsPerPage == 10 && !r.pagination.hasPrevPage
  {
    SlicePrefix(items, 10);
    Paginate(items, 1, 10)
  }

  /** A page from the first on holds at most `limit` items: the slice from
      `(page - 1) * limit` cut to the items. */
  lemma PaginateWindow<T>(items: seq<T>, page: int, limit: nat)
    requires page >= 1
    ensures var offset := (page - 1) * limit;
            var r := Paginate(items, page, limit).data;
            offset >= 0 && |r| <= limit
            && (|items| <= offset ==> r == [])
            && (offset < |items| ==> r == items[offset..if offset + limit < |items| then offset + limit else |items|])
  {
    var offset := (page - 1) * limit;
    MulNonNegative(page - 1, limit);
    SliceNonNegative(items, offset, offset + limit);
  }

  lemma MulNonNegative(a: nat, b: nat)
    ensures a * b >= 0
  {
  }

  lemma MulMonotone(a: int, b: int, c: nat)
    requires a <= b
    ensures a * c <= b * c
  {
  }

  /** With a positive limit every item is on exactly the page its index says,
      at the place its index says, and that page is one of `totalPages`. */
  lemma PaginateFindsEveryItem<T>(items: seq<T>, limit: int, i: nat)
    requires limit > 0 && i < |items|
    ensures var page := i / limit + 1;
            var r := Paginate(items, page, limit);
            i % limit < |r.data| && r.data[i % limit] == items[i]
            && PageBelow(page - 1, TotalPages(|items|, limit))
  {
    var page := i / limit + 1;
    var offset := (page - 1) * limit;
    assert offset == i / limit * limit;
    assert offset + i % limit == i;
    SliceNonNegative(items, offset, offset + limit);
    var t := TotalPages(|items|, limit).n;
    if t <= page - 1 {
      MulMonotone(t, page - 1, limit);
      assert false;
    }
  }

  /** With a positive limit and a page from the first on, there is a next page
      exactly when items lie beyond this one. */
  lemma HasNextPageIffMoreItems<T>(items: seq<T>, page: int, limit: int)
    requires limit > 0 && page >= 1
    ensures Paginate(items, page, limit).pagination.hasNextPage <==> page * limit < |items|
  {
    var t := TotalPages(|items|, limit).n;
    if page < t {
      MulMonotone(page, t - 1, limit);
    } else {
      MulMonotone(t, page, limit);
    }
  }

  // ---------------------------------------------------------------------------
  // sanitize

  /** The characters `sanitize` removes: `<`, `>`, `'` and `"`. */
  predicate Unsafe(c: char) {
    c == '<' || c == '>' || c == '\'' || c == '"'
  }

  predicate Safe(c: char) { !Unsafe(c) }

  /** `str.replace(/[<>'"]/g, '')` */
  function RemoveUnsafe(s: string): (r: string)
    ensures forall c :: c in r <==> c in s && !Unsafe(c)
  {
    Filter(s, Safe)
  }

  /** `sanitize(str)` for a string or an absent value (`None`): an absent or
      empty input gives the empty string; otherwise the unsafe characters are
      removed and the surrounding white space trimmed. */
  function Sanitize(str: Option<string>): (r: string)
    ensures str.None? || str.value == [] ==> r == []
    ensures r == [] || (!IsWhiteSpace(r[0]) && !IsWhiteSpace(r[|r| - 1]))
  {
    if str.None? || str.value == [] then [] else Trim(RemoveUnsafe(str.value))
  }

  /** Every character of the result is in the input and is safe. */
  lemma SanitizeIsSafe(str: Option<string>)
    ensures forall c :: c in Sanitize(str) ==> !Unsafe(c) && str.Some? && c in str.value
  {
    if str.Some? && str.value != [] {
      var s := RemoveUnsafe(str.value);
      TrimIsInfix(s);
      var k := |s| - |TrimStart(s)|;
      forall c | c in Sanitize(str) ensures c in s {
        var r := Sanitize(str);
        var j :| 0 <= j < |r| && r[j] == c;
        assert s[k + j] == c;
      }
    }
  }

  /** No unsafe character and no surrounding white space. */
  predicate Clean(s: string) {
    (forall i :: 0 <= i < |s| ==> !Unsafe(s[i])) && (s == [] || (!IsWhiteSpace(s[0]) && !IsWhiteSpace(s[|s| - 1])))
  }

  lemma CleanIsKept(s: string)
    requires Clean(s)
    ensures Sanitize(Some(s)) == s
  {
    if s != [] {
      FilterAll(s, Safe);
      TrimOfTrimmed(s);
    }
  }

  lemma KeptIsClean(s: string)
    requires Sanitize(Some(s)) == s
    ensures Clean(s)
  {
    SanitizeIsSafe(Some(s));
    assert forall i :: 0 <= i < |s| ==> s[i] in Sanitize(Some(s));
  }

  /** A string is left as it is exactly when it has no unsafe character and no
      surrounding white space. */
  lemma SanitizeFixedPoints(s: string)
    ensures Sanitize(Some(s)) == s <==> Clean(s)
  {
    if Clean(s) { CleanIsKept(s); }
    if Sanitize(Some(s)) == s { KeptIsClean(s); }
  }

  /** Sanitizing twice is sanitizing once. */
  lemma SanitizeIdempotent(str: Option<string>)
    ensures Sanitize(Some(Sanitize(str))) == Sanitize(str)
  {
    var r := Sanitize(str);
    SanitizeIsSafe(str);
    assert forall i :: 0 <= i < |r| ==> r[i] in r;
    SanitizeFixedPoints(r);
  }
}
