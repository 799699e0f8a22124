/** Opaque cursors, validated page requests, and the `limit + 1` sentinel row. */
module Pagination {
  import opened Basics
  import Decimal

  const MAX_OFFSET: int := 10_000

  type i64 = n: int | -TWO_63 <= n < TWO_63

  /** Base64 over UTF-8 text. `decode` already tries the URL-safe alphabet and then the standard one. */
  datatype Base64 = Base64(encode: string -> string, decode: string -> Option<string>)

  ghost predicate Faithful(codec: Base64) {
    forall payload :: codec.decode(codec.encode(payload)) == Some(payload)
  }

  /** A keyset position, `(ledger, event_id)`. */
  datatype Position = Position(ledger: i64, eventId: string)

  function Payload(p: Position): string { Decimal.IntText(p.ledger) + "|" + p.eventId }

  /** `split_once('|')`. */
  function SplitOnce(s: string): (r: Option<(string, string)>)
    ensures r.Some? ==> s == r.value.0 + "|" + r.value.1 && '|' !in r.value.0
    ensures r.None? ==> '|' !in s
  {
    if s == [] then None
    else if s[0] == '|' then Some(([], s[1..]))
    else match SplitOnce(s[1..])
      case None => None
      case Some((head, tail)) => Some(([s[0]] + head, tail))
  }

  function ParsePayload(s: string): Option<Position> {
    match SplitOnce(s)
    case None => None
    case Some((head, tail)) =>
      match Decimal.ParseInt(head, true, -TWO_63, TWO_63 - 1)
      case None => None
      case Some(n) => Some(Position(n, tail))
  }

  function EncodeCursor(codec: Base64, p: Position): string { codec.encode(Payload(p)) }

  /** The error is "invalid cursor" whichever step fails. */
  function DecodeCursor(codec: Base64, cursor: Option<string>): Result<Option<Position>, ()> {
    match cursor
    case None => Ok(None)
    case Some(raw) =>
      match codec.decode(raw)
      case None => Err(())
      case Some(s) => match ParsePayload(s) case None => Err(()) case Some(p) => Ok(Some(p))
  }

  lemma {:induction false} SplitAt(head: string, tail: string)
    requires '|' !in head
    ensures SplitOnce(head + "|" + tail) == Some((head, tail))
  {
    var s := head + "|" + tail;
    if head == [] {
      assert s[1..] == tail;
    } else {
      assert s[1..] == head[1..] + "|" + tail && s[0] == head[0];
      SplitAt(head[1..], tail);
      assert head == [head[0]] + head[1..];
    }
  }

  lemma {:induction false} IntTextHasNoBar(n: int)
    ensures '|' !in Decimal.IntText(n)
  {
    var digits := Decimal.NatText(if n < 0 then -n else n);
    assert forall i :: 0 <= i < |digits| ==> Decimal.IsDigit(digits[i]);
  }

  /** A cursor gives its position back, whatever the id holds: bars, quotes, nothing at all. */
  lemma CursorRoundTrip(codec: Base64, p: Position)
    requires Faithful(codec)
    ensures DecodeCursor(codec, Some(EncodeCursor(codec, p))) == Ok(Some(p))
  {
    IntTextHasNoBar(p.ledger);
    SplitAt(Decimal.IntText(p.ledger), p.eventId);
    Decimal.ParseIntText(p.ledger, true, -TWO_63, TWO_63 - 1);
  }

  /** `head|id` is a payload of the position when `head` is a bar-free text of its ledger. */
  predicate IsPayload(s: string, head: string, p: Position) {
    s == head + "|" + p.eventId && '|' !in head && Decimal.ParseInt(head, true, -TWO_63, TWO_63 - 1) == Some(p.ledger)
  }

  /** A cursor is accepted exactly when its payload is a 64-bit integer, a bar, and any text. */
  lemma CursorAccepted(codec: Base64, raw: string, p: Position)
    ensures DecodeCursor(codec, Some(raw)) == Ok(Some(p)) <==>
      codec.decode(raw).Some? && exists head :: IsPayload(codec.decode(raw).value, head, p)
  {
    if codec.decode(raw).Some? {
      var s := codec.decode(raw).value;
      if head :| IsPayload(s, head, p) {
        SplitAt(head, p.eventId);
      }
      if ParsePayload(s) == Some(p) {
        assert IsPayload(s, SplitOnce(s).value.0, p);
      }
    }
  }

  // ---- page requests ----

  datatype PageError = InvalidCursor | OffsetTooDeep

  datatype PageRequest<C> = PageRequest(limit: int, offset: int, after: Option<C>)

  function Clamp(n: int, lo: int, hi: int): int
    requires lo <= hi
  {
    if n < lo then lo else if n > hi then hi else n
  }

  /** `clamp` panics when the range is empty, so a caller's maximum is at least one. */
  function Parse<C>(decode: string -> Option<C>, limit: int, maxLimit: int, offset: int, after: Option<string>)
      : (r: Result<PageRequest<C>, PageError>)
    requires maxLimit >= 1
    ensures r.Ok? <==> if after.Some? then decode(after.value).Some? else offset <= 10_000
    ensures r.Ok? ==>
      && (1 <= limit <= maxLimit ==> r.value.limit == limit)
      && (limit < 1 ==> r.value.limit == 1) && (limit > maxLimit ==> r.value.limit == maxLimit)
      && 0 <= r.value.offset <= 10_000
      && r.value.offset == (if after.Some? || offset < 0 then 0 else offset)
      && r.value.after == (if after.Some? then decode(after.value) else None)
    ensures r.Err? ==> (r.error.InvalidCursor? <==> after.Some?)
  {
    if after.Some? && decode(after.value).None? then Err(InvalidCursor)
    else
      var position := if after.None? then None else decode(after.value);
      var start := if position.Some? then 0 else if offset < 0 then 0 else offset;
      if start > MAX_OFFSET then Err(OffsetTooDeep)
      else Ok(PageRequest(Clamp(limit, 1, maxLimit), start, position))
  }

  // ---- the sentinel row ----

  datatype Page<T> = Page(data: seq<T>, hasMore: bool, nextCursor: Option<string>, offsetDeprecated: bool)

  /** Trim the sentinel row in place: rows are kept in order, none is dropped unless a further page is announced,
      and the cursor of an announced page stands on the last row kept. */
  method Finish<T, C>(request: PageRequest<C>, fetched: seq<T>, cursorOf: T -> C, encode: C -> string)
      returns (page: Page<T>)
    requires request.limit >= 1
    ensures page.data <= fetched && |page.data| <= request.limit
    ensures page.hasMore <==> page.data != fetched
    ensures page.hasMore ==>
            |page.data| == request.limit && page.nextCursor == Some(encode(cursorOf(page.data[|page.data| - 1])))
    ensures !page.hasMore ==> page.nextCursor.None?
    ensures page.offsetDeprecated <==> request.after.None? && request.offset > 0
  {
    var rows := fetched;
    var hasMore := |rows| > request.limit;
    if hasMore {
      rows := rows[..request.limit];
    }
    var nextCursor := if hasMore then Some(encode(cursorOf(rows[|rows| - 1]))) else None;
    page := Page(rows, hasMore, nextCursor, request.after.None? && request.offset > 0);
  }
}
