/** Cursor pagination of src/engine/pagination.rs. */
module Pagination {
  import opened Wrappers
  import Base64
  import Decimal

  datatype PageError = InvalidCursor

  datatype Page<T> = Page(items: seq<T>, nextCursor: Option<string>)

  const CURSOR_VERSION := "v1:"

  predicate Ascii(s: string) {
    forall i :: 0 <= i < |s| ==> s[i] < 128 as char
  }

  /** The bytes of ASCII text. */
  function Bytes(s: string): seq<Base64.Byte>
    requires Ascii(s)
  {
    seq(|s|, i requires 0 <= i < |s| => ByteOf(s[i]))
  }

  function ByteOf(c: char): Base64.Byte
    requires c < 128 as char
  {
    c as nat
  }

  /**
   The text of a byte string, one character per byte. The source decodes UTF-8; a byte above 127
   makes both readings end in the same error, since neither leaves a digit there.
   */
  function Characters(bytes: seq<Base64.Byte>): string {
    seq(|bytes|, i requires 0 <= i < |bytes| => bytes[i] as char)
  }

  lemma VersionedAscii(digits: string)
    requires Decimal.AllDigits(digits)
    ensures Ascii(CURSOR_VERSION + digits)
  {
    forall i | 0 <= i < |digits|
      ensures digits[i] < 128 as char
    {
      assert Decimal.IsDigit(digits[i]);
    }
  }

  function EncodePaginationCursor(offset: nat): string {
    VersionedAscii(Decimal.Print(offset));
    Base64.Encode(Bytes(CURSOR_VERSION + Decimal.Print(offset)))
  }

  function DecodePaginationCursor(cursor: string): Result<nat, PageError> {
    match Base64.Decode(cursor)
    case None => Err(InvalidCursor)
    case Some(bytes) =>
      var decoded := Characters(bytes);
      if !(CURSOR_VERSION <= decoded) then Err(InvalidCursor)
      else match Decimal.ParseUsize(decoded[|CURSOR_VERSION|..])
        case None => Err(InvalidCursor)
        case Some(offset) => Ok(offset)
  }

  function Min(a: nat, b: nat): nat {
    if a < b then a else b
  }

  function SaturatingAdd(a: nat, b: nat): nat {
    Min(a + b, Decimal.USIZE_MAX)
  }

  function PaginateItems<T>(items: seq<T>, cursor: Option<string>, pageSize: nat): Result<Page<T>, PageError>
    requires |items| <= Decimal.USIZE_MAX
  {
    var decoded := match cursor case None => Ok(0) case Some(c) => DecodePaginationCursor(c);
    match decoded
    case Err(error) => Err(error)
    case Ok(start) =>
      if start > |items| then Err(InvalidCursor)
      else
        var end := Min(SaturatingAdd(start, pageSize), |items|);
        Ok(Page(items[start..end], if end < |items| then Some(EncodePaginationCursor(end)) else None))
  }

  lemma CharactersOfBytes(s: string)
    requires Ascii(s)
    ensures Characters(Bytes(s)) == s
  {
  }

  /** Encoding and decoding a cursor is the identity on every offset. */
  lemma CursorRoundTrip(offset: nat)
    requires offset <= Decimal.USIZE_MAX
    ensures DecodePaginationCursor(EncodePaginationCursor(offset)) == Ok(offset)
  {
    var digits := Decimal.Print(offset);
    var text := CURSOR_VERSION + digits;
    VersionedAscii(digits);
    Base64.DecodeEncode(Bytes(text));
    CharactersOfBytes(text);
    assert text[|CURSOR_VERSION|..] == digits;
    Decimal.ParsePrint(offset);
  }

  /** The cursor is the encoding of the version tag and a text of the offset, which a machine word holds. */
  ghost predicate CursorOf(cursor: string, offset: nat) {
    offset <= Decimal.USIZE_MAX
    && exists bytes, digits :: CursorFrom(cursor, bytes, digits) && Decimal.Spells(digits, offset)
  }

  predicate CursorFrom(cursor: string, bytes: seq<Base64.Byte>, digits: string) {
    cursor == Base64.Encode(bytes) && Characters(bytes) == "v1:" + digits
  }

  /** The cursors that are accepted, exactly. */
  lemma CursorAccepted(cursor: string, offset: nat)
    ensures DecodePaginationCursor(cursor) == Ok(offset) <==> CursorOf(cursor, offset)
  {
    if DecodePaginationCursor(cursor) == Ok(offset) {
      var bytes := Base64.Decode(cursor).value;
      Base64.EncodeDecode(cursor);
      var digits := Characters(bytes)[|CURSOR_VERSION|..];
      Decimal.ParsesExactly(digits, offset);
      assert CursorFrom(cursor, bytes, digits);
    }
    if CursorOf(cursor, offset) {
      var bytes, digits :| CursorFrom(cursor, bytes, digits) && Decimal.Spells(digits, offset);
      Base64.DecodeEncode(bytes);
      assert Characters(bytes)[|CURSOR_VERSION|..] == digits;
      Decimal.ParsesExactly(digits, offset);
    }
  }

  /** The position a request starts at. */
  function Start(cursor: Option<string>): Result<nat, PageError> {
    match cursor case None => Ok(0) case Some(c) => DecodePaginationCursor(c)
  }

  /**
   A request without a cursor always gets a page; one with a cursor gets one exactly when that is the
   encoding of a position in the list or of its end, and is refused otherwise.
   */
  lemma PageRefused<T>(items: seq<T>, cursor: Option<string>, pageSize: nat)
    requires |items| <= Decimal.USIZE_MAX
    ensures PaginateItems(items, cursor, pageSize) == Err(InvalidCursor)
       <==> cursor.Some? && forall offset: nat :: CursorOf(cursor.value, offset) ==> offset > |items|
  {
    if cursor.Some? {
      forall offset: nat
        ensures DecodePaginationCursor(cursor.value) == Ok(offset) <==> CursorOf(cursor.value, offset)
      {
        CursorAccepted(cursor.value, offset);
      }
      if DecodePaginationCursor(cursor.value).Ok? {
        assert CursorOf(cursor.value, DecodePaginationCursor(cursor.value).value);
      }
    }
  }

  lemma PageEnds<T>(items: seq<T>, cursor: Option<string>, pageSize: nat)
    requires |items| <= Decimal.USIZE_MAX && 0 < pageSize
    requires Start(cursor).Ok? && Start(cursor).value <= |items|
    ensures var start := Start(cursor).value;
            var page := PaginateItems(items, cursor, pageSize);
            && page.Ok? && page.value.items == items[start..Min(start + pageSize, |items|)]
            && (page.value.nextCursor.Some? <==> start + pageSize < |items|)
            && (page.value.nextCursor.Some? ==> Start(page.value.nextCursor) == Ok(start + pageSize))
  {
    var start := Start(cursor).value;
    if start + pageSize < |items| {
      CursorRoundTrip(start + pageSize);
    }
  }

  /** The pages a client sees that follows `next_cursor` until there is none. */
  function Walk<T>(items: seq<T>, cursor: Option<string>, pageSize: nat): seq<seq<T>>
    requires |items| <= Decimal.USIZE_MAX && 0 < pageSize
    requires Start(cursor).Ok? && Start(cursor).value <= |items|
    decreases |items| - Start(cursor).value
  {
    PageEnds(items, cursor, pageSize);
    var page := PaginateItems(items, cursor, pageSize).value;
    if page.nextCursor.None? then [page.items]
    else [page.items] + Walk(items, page.nextCursor, pageSize)
  }

  function Flatten<T>(pages: seq<seq<T>>): seq<T> {
    if pages == [] then [] else pages[0] + Flatten(pages[1..])
  }

  function PageCount(n: nat, pageSize: nat): nat
    requires 0 < pageSize
  {
    if n == 0 then 1 else (n + pageSize - 1) / pageSize
  }

  lemma PageCountStep(n: nat, pageSize: nat)
    requires 0 < pageSize < n
    ensures PageCount(n, pageSize) == 1 + PageCount(n - pageSize, pageSize)
  {
    var m := n - pageSize;
    assert (m + pageSize - 1 + pageSize) / pageSize == (m + pageSize - 1) / pageSize + 1 by {
      DivStep(m + pageSize - 1, pageSize);
    }
  }

  lemma DivStep(x: nat, d: nat)
    requires 0 < d
    ensures (x + d) / d == x / d + 1
  {
    var q, r := x / d, x % d;
    assert x + d == d * (q + 1) + r;
    DivUnique(x + d, d, q + 1, r);
  }

  lemma MulMonotone(d: nat, a: int, b: int)
    ensures a <= b ==> d * a <= d * b
  {
  }

  lemma DivUnique(x: nat, d: nat, q: nat, r: nat)
    requires 0 < d && r < d && x == d * q + r
    ensures x / d == q
  {
    MulMonotone(d, q + 1, x / d);
    MulMonotone(d, x / d + 1, q);
  }

  lemma OnePage(n: nat, pageSize: nat)
    requires n <= pageSize && 0 < pageSize
    ensures PageCount(n, pageSize) == 1
  {
    if 0 < n {
      DivUnique(n + pageSize - 1, pageSize, 1, n - 1);
    }
  }

  /** All pages but the last are full. */
  predicate FullPages<T>(pages: seq<seq<T>>, pageSize: nat) {
    && pages != [] && |pages[|pages| - 1]| <= pageSize
    && forall i :: 0 <= i < |pages| - 1 ==> |pages[i]| == pageSize
  }

  /** The pages a list falls into from a position on. */
  function Pages<T>(items: seq<T>, start: nat, pageSize: nat): seq<seq<T>>
    requires 0 < pageSize && start <= |items|
    decreases |items| - start
  {
    if start + pageSize < |items| then [items[start..start + pageSize]] + Pages(items, start + pageSize, pageSize)
    else [items[start..]]
  }

  lemma {:induction false} WalkIsPages<T>(items: seq<T>, cursor: Option<string>, pageSize: nat)
    requires |items| <= Decimal.USIZE_MAX && 0 < pageSize
    requires Start(cursor).Ok? && Start(cursor).value <= |items|
    ensures Walk(items, cursor, pageSize) == Pages(items, Start(cursor).value, pageSize)
    decreases |items| - Start(cursor).value
  {
    PageEnds(items, cursor, pageSize);
    var page := PaginateItems(items, cursor, pageSize).value;
    if page.nextCursor.Some? {
      WalkIsPages(items, page.nextCursor, pageSize);
    } else {
      assert page.items == items[Start(cursor).value..];
    }
  }

  lemma {:induction false} PagesCoverItems<T>(items: seq<T>, start: nat, pageSize: nat)
    requires 0 < pageSize && start <= |items|
    ensures Flatten(Pages(items, start, pageSize)) == items[start..]
    decreases |items| - start
  {
    if start + pageSize < |items| {
      PagesCoverItems(items, start + pageSize, pageSize);
      assert items[start..] == items[start..start + pageSize] + items[start + pageSize..];
    } else {
      assert [items[start..]] + [] == [items[start..]];
    }
  }

  lemma {:induction false} PagesCounted<T>(items: seq<T>, start: nat, pageSize: nat)
    requires 0 < pageSize && start <= |items|
    ensures |Pages(items, start, pageSize)| == PageCount(|items| - start, pageSize)
    ensures FullPages(Pages(items, start, pageSize), pageSize)
    decreases |items| - start
  {
    if start + pageSize < |items| {
      PagesCounted(items, start + pageSize, pageSize);
      PageCountStep(|items| - start, pageSize);
    } else {
      OnePage(|items| - start, pageSize);
    }
  }

  /**
   A client that starts without a cursor visits every item exactly once and in order, in full pages
   up to the last one, and in max(1, ceil(n / pageSize)) of them.
   */
  lemma {:induction false} WalkVisitsAll<T>(items: seq<T>, pageSize: nat)
    requires |items| <= Decimal.USIZE_MAX && 0 < pageSize
    ensures var pages := Walk(items, None, pageSize);
            && Flatten(pages) == items
            && |pages| == PageCount(|items|, pageSize)
            && FullPages(pages, pageSize)
  {
    WalkIsPages(items, None, pageSize);
    PagesCoverItems(items, 0, pageSize);
    PagesCounted(items, 0, pageSize);
    assert items[0..] == items;
  }
}
