/** The paginated device lists of the DEP web services. */
module DepClient {
  import opened Wrappers

  /** An attribute in the JSON of a device: not there, null, or a value. */
  datatype Attr<T> = Absent | Null | Given(value: T)

  /** A device as delivered; dates are parsed already, and a date that is not there is
      the same as null, or one that cannot be parsed. */
  datatype Delivered = Delivered(
    serialNumber: string,
    opType: Attr<string>, opDate: Option<int>,
    assignedBy: Attr<string>, profileStatus: Attr<string>, profileUuid: Attr<string>,
    assignedDate: Option<int>, assignTime: Option<int>, pushTime: Option<int>)

  datatype Page = Page(devices: seq<Delivered>, moreToFollow: bool, cursor: Option<string>)

  /** The answers of a web service, by the cursor in the request. */
  type Pages = Option<string> -> Page

  /** An empty cursor is not sent. */
  function Sent(cursor: Option<string>): Option<string> {
    if cursor == Some("") then None else cursor
  }

  /** The service reaches its last page in at most n requests. */
  ghost predicate Drains(pages: Pages, cursor: Option<string>, n: nat)
    decreases n
  {
    n > 0 && (pages(Sent(cursor)).moreToFollow ==> Drains(pages, pages(Sent(cursor)).cursor, n - 1))
  }

  /** All devices, page after page. */
  ghost function AllDevices(pages: Pages, cursor: Option<string>, n: nat): seq<Delivered>
    requires Drains(pages, cursor, n)
    decreases n
  {
    var page := pages(Sent(cursor));
    page.devices + if page.moreToFollow then AllDevices(pages, page.cursor, n - 1) else []
  }

  /** The cursor of the last page. */
  ghost function LastCursor(pages: Pages, cursor: Option<string>, n: nat): Option<string>
    requires Drains(pages, cursor, n)
    decreases n
  {
    var page := pages(Sent(cursor));
    if page.moreToFollow then LastCursor(pages, page.cursor, n - 1) else page.cursor
  }

  /** How many pages there are does not depend on the bound. */
  lemma {:induction false} SameDevices(pages: Pages, cursor: Option<string>, n: nat, m: nat)
    requires Drains(pages, cursor, n) && Drains(pages, cursor, m)
    ensures AllDevices(pages, cursor, n) == AllDevices(pages, cursor, m)
    ensures LastCursor(pages, cursor, n) == LastCursor(pages, cursor, m)
    decreases n
  {
    if pages(Sent(cursor)).moreToFollow {
      SameDevices(pages, pages(Sent(cursor)).cursor, n - 1, m - 1);
    }
  }

  /** The page that the service gives for a cursor; an empty cursor is not sent. */
  ghost predicate Answers(pages: Pages, cursor: Option<string>, page: Page) {
    match cursor
    case None => page == pages(None)
    case Some(c) => if c == "" then page == pages(None) else page == pages(Some(c))
  }

  /** The pages that are requested one after the other. */
  ghost predicate IsListing(pages: Pages, start: Option<string>, listing: seq<Page>) {
    && listing != []
    && Answers(pages, start, listing[0])
    && (forall k | 0 < k < |listing| :: Answers(pages, listing[k - 1].cursor, listing[k]))
    && (forall k | 0 <= k < |listing| :: listing[k].moreToFollow <==> k < |listing| - 1)
  }

  function Flatten(listing: seq<Page>): seq<Delivered> {
    if listing == [] then [] else listing[0].devices + Flatten(listing[1..])
  }

  /** The devices are those of the pages in order, the cursor is the one of the last page. */
  lemma {:induction false} PagesConcatenated(pages: Pages, start: Option<string>, listing: seq<Page>)
    requires IsListing(pages, start, listing)
    ensures Drains(pages, start, |listing|)
    ensures AllDevices(pages, start, |listing|) == Flatten(listing)
    ensures LastCursor(pages, start, |listing|) == listing[|listing| - 1].cursor
    decreases listing
  {
    if |listing| == 1 {
      assert listing[1..] == [];
    } else {
      var rest := listing[1..];
      assert forall k | 0 < k < |rest| :: rest[k - 1] == listing[k];
      PagesConcatenated(pages, listing[0].cursor, rest);
    }
  }

  /** `CursorIterator` over `_device_iterator_request`: pages are requested when their
      devices are asked for, and `cursor` is set when the last device was taken. */
  class CursorIterator {
    const pages: Pages
    var cursor: Option<string>
    var page: seq<Delivered>
    var position: nat
    var following: Option<Option<string>>
    var last: Option<string>
    ghost var left: nat
    /** The devices that were not taken yet, and what `cursor` is going to be. */
    ghost var remaining: seq<Delivered>
    ghost var final: Option<string>

    constructor (pages: Pages, start: Option<string>, ghost n: nat)
      requires Drains(pages, start, n)
      ensures Valid() && this.pages == pages && cursor == None
      ensures remaining == AllDevices(pages, start, n) && final == LastCursor(pages, start, n)
    {
      this.pages := pages;
      cursor, last, page, position, following, left := None, None, [], 0, Some(start), n;
      remaining, final := AllDevices(pages, start, n), LastCursor(pages, start, n);
    }

    ghost predicate Valid()
      reads this
    {
      && position <= |page|
      && match following
         case None => remaining == page[position..] && final == last
         case Some(next) =>
           && Drains(pages, next, left)
           && remaining == page[position..] + AllDevices(pages, next, left)
           && final == LastCursor(pages, next, left)
    }

    /** The next page takes the place of one whose devices were all taken. */
    method RequestPage()
      requires Valid() && position == |page| && following.Some?
      modifies this
      ensures Valid() && remaining == old(remaining) && final == old(final) && cursor == old(cursor)
      ensures left < old(left)
    {
      var response := pages(Sent(following.value));
      assert page[position..] == [];
      page, position, last := response.devices, 0, response.cursor;
      assert page[position..] == page;
      following := if response.moreToFollow then Some(response.cursor) else None;
      left := left - 1;
    }

    method Next() returns (device: Option<Delivered>)
      requires Valid()
      modifies this
      ensures Valid() && final == old(final)
      ensures match device
              case Some(d) => old(remaining) == [d] + remaining && cursor == old(cursor)
              case None => old(remaining) == [] && remaining == [] && cursor == final
    {
      while position == |page| && following.Some?
        invariant Valid() && remaining == old(remaining) && final == old(final) && cursor == old(cursor)
        decreases left
      {
        RequestPage();
      }
      if position < |page| {
        device := Some(page[position]);
        assert page[position..] == [page[position]] + page[position + 1..];
        position := position + 1;
        remaining := remaining[1..];
      } else {
        device := None;
        cursor := last;
      }
    }
  }
}
