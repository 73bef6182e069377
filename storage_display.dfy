/**
 What the popup shows for each storage bucket (`displayStorageType` and
 `displayData` in popup.js), as a list of display items rather than HTML:
 per entry its key, whether it is shown as an image, the preview text and
 the length of the full value; for an empty bucket a single "No items found"
 placeholder.
 */
module StorageDisplay {
  import opened JsStrings
  import StorageReader

  /** The three buckets, `type` in the source. */
  datatype StorageKind = Local | Session | Cookies

  /** One entry of a bucket's display, or the placeholder of an empty bucket.
      `preview` is what the value cell holds before HTML escaping: the image
      source for an image, the possibly shortened text otherwise. */
  datatype DisplayItem =
    | NoItems
    | Item(kind: StorageKind, key: JsString, isImage: bool, preview: JsString, length: nat)

  /** Values longer than this are shortened in the preview. */
  const PreviewLimit: nat := 100

  const Ellipsis: JsString := Units("...")

  const ImagePrefix: JsString := Units("data:image/")

  /** `value && value.startsWith('data:image/')`. */
  predicate IsImage(value: JsString)
    ensures IsImage(value) <==> ImagePrefix <= value
    ensures IsImage(value) ==> |value| >= |ImagePrefix|
  {
    value != [] && ImagePrefix <= value
  }

  /** `value && value.length > 100 ? value.substring(0, 100) + '...' : value`. */
  function Preview(value: JsString): (p: JsString)
    ensures |value| <= PreviewLimit ==> p == value
    ensures |value| > PreviewLimit ==>
              |p| == PreviewLimit + |Ellipsis| && p[..PreviewLimit] == value[..PreviewLimit] && p[PreviewLimit..] == Ellipsis
  {
    if value != [] && |value| > PreviewLimit then value[..PreviewLimit] + Ellipsis else value
  }

  /** The display item of one entry. The image test needs no separate
      emptiness check (an empty value never has the prefix), an empty value
      is text with an empty preview and length 0, and the length is always
      that of the full value, never of the shortened preview. */
  function DeriveItem(kind: StorageKind, key: JsString, value: JsString): (item: DisplayItem)
    ensures item.Item? && item.kind == kind && item.key == key
    ensures item.isImage <==> ImagePrefix <= value
    ensures item.length == |value|
    ensures item.isImage ==> item.preview == value
    ensures !item.isImage ==> item.preview == Preview(value)
    ensures value == [] ==> !item.isImage && item.preview == [] && item.length == 0
  {
    var image := IsImage(value);
    Item(kind, key, image, if image then value else Preview(value), |value|)
  }

  /** A text preview is never longer than 103 code units and keeps the start
      of the value. It equals the value when the value is at most 100 code
      units long, and otherwise only in the one case where the value is 103
      code units long and already ends in `...`. */
  lemma PreviewShape(value: JsString)
    ensures |Preview(value)| == if |value| <= PreviewLimit then |value| else PreviewLimit + |Ellipsis|
    ensures Preview(value)[..Min(|value|, PreviewLimit)] == value[..Min(|value|, PreviewLimit)]
    ensures (Preview(value) == value) <==>
            (|value| <= PreviewLimit || (|value| == PreviewLimit + |Ellipsis| && value[PreviewLimit..] == Ellipsis))
  {
    assert |Ellipsis| == 3;
    if |value| == PreviewLimit + |Ellipsis| && value[PreviewLimit..] == Ellipsis {
      assert value == value[..PreviewLimit] + value[PreviewLimit..];
    }
  }

  function Min(a: int, b: int): int {
    if a <= b then a else b
  }

  /** Shortening a preview again changes nothing. */
  lemma PreviewIdempotent(value: JsString)
    ensures Preview(Preview(value)) == Preview(value)
  {
    var p := Preview(value);
    if |value| > PreviewLimit {
      assert |Ellipsis| == 3;
      assert p[..PreviewLimit] + Ellipsis == p;
    }
  }

  /** A value with the image prefix is shown as an image, whole. */
  lemma ImageValueShownWhole(kind: StorageKind, key: JsString, rest: JsString)
    ensures DeriveItem(kind, key, ImagePrefix + rest).isImage
    ensures DeriveItem(kind, key, ImagePrefix + rest).preview == ImagePrefix + rest
    ensures DeriveItem(kind, key, ImagePrefix + rest).length == |ImagePrefix| + |rest|
  {
    assert ImagePrefix <= ImagePrefix + rest;
  }

  /** `view` is what the popup shows for bucket `items`: the placeholder alone
      for an empty bucket, otherwise one item per key, in some order, each
      derived from that key and its value. */
  ghost predicate RendersAs(kind: StorageKind, items: map<JsString, JsString>, view: seq<DisplayItem>) {
    if items == map[] then view == [NoItems]
    else
      && |view| == |items|
      && (forall i :: 0 <= i < |view| ==>
            view[i].Item? && view[i].key in items && view[i] == DeriveItem(kind, view[i].key, items[view[i].key]))
      && (forall i, j :: 0 <= i < j < |view| && view[i].Item? && view[j].Item? ==> view[i].key != view[j].key)
      && (forall k :: k in items ==> exists i :: 0 <= i < |view| && view[i].Item? && view[i].key == k)
  }

  /** `displayStorageType`: the placeholder when the bucket has no keys,
      otherwise the loop over the bucket's entries that appends one item per
      entry. The order of the entries is left open. */
  method DisplayStorageType(kind: StorageKind, items: map<JsString, JsString>) returns (view: seq<DisplayItem>)
    ensures RendersAs(kind, items, view)
    ensures NoItems in view <==> items == map[]
    ensures |view| == if items == map[] then 1 else |items|
  {
    if |items| == 0 {
      assert items.Keys == {};
      return [NoItems];
    }
    view := [];
    var remaining := items.Keys;
    while remaining != {}
      invariant remaining <= items.Keys
      invariant ShownExcept(kind, items, remaining, view)
      decreases remaining
    {
      var key :| key in remaining;
      ShowOne(kind, items, remaining, view, key);
      view := view + [DeriveItem(kind, key, items[key])];
      remaining := remaining - {key};
    }
    ShownAll(kind, items, view);
  }

  /** The loop's invariant: `view` shows every key of `items` outside
      `remaining`, once each and in some order. */
  ghost predicate ShownExcept(kind: StorageKind, items: map<JsString, JsString>,
                              remaining: set<JsString>, view: seq<DisplayItem>) {
    && |view| + |remaining| == |items|
    && (forall i :: 0 <= i < |view| ==>
          view[i].Item? && view[i].key in items && view[i].key !in remaining &&
          view[i] == DeriveItem(kind, view[i].key, items[view[i].key]))
    && (forall i, j :: 0 <= i < j < |view| && view[i].Item? && view[j].Item? ==> view[i].key != view[j].key)
    && (forall k :: k in items && k !in remaining ==>
          exists i :: 0 <= i < |view| && view[i].Item? && view[i].key == k)
  }

  /** Showing one more remaining key keeps the loop's invariant. */
  lemma ShowOne(kind: StorageKind, items: map<JsString, JsString>, remaining: set<JsString>,
                view: seq<DisplayItem>, key: JsString)
    requires remaining <= items.Keys && key in remaining
    requires ShownExcept(kind, items, remaining, view)
    ensures ShownExcept(kind, items, remaining - {key}, view + [DeriveItem(kind, key, items[key])])
  {
    var item := DeriveItem(kind, key, items[key]);
    var view' := view + [item];
    assert forall i :: 0 <= i < |view| ==> view'[i] == view[i];
    assert view'[|view|] == item && item.key == key;
    assert |remaining - {key}| == |remaining| - 1;
  }

  /** With nothing remaining, the invariant is the rendering of a non-empty
      bucket. */
  lemma ShownAll(kind: StorageKind, items: map<JsString, JsString>, view: seq<DisplayItem>)
    requires items != map[]
    requires ShownExcept(kind, items, {}, view)
    ensures RendersAs(kind, items, view)
    ensures NoItems !in view
    ensures |view| == |items|
  {
  }

  /** `displayData`: each bucket of a snapshot shown in its own list. */
  method DisplayData(data: StorageReader.Snapshot)
    returns (localView: seq<DisplayItem>, sessionView: seq<DisplayItem>, cookieView: seq<DisplayItem>)
    ensures RendersAs(Local, data.local, localView)
    ensures RendersAs(Session, data.session, sessionView)
    ensures RendersAs(Cookies, data.cookies, cookieView)
  {
    localView := DisplayStorageType(Local, data.local);
    sessionView := DisplayStorageType(Session, data.session);
    cookieView := DisplayStorageType(Cookies, data.cookies);
  }

  /** A storage area with nothing in it shows exactly the placeholder, and an
      area with something in it never shows the placeholder. */
  lemma EmptyAreaShowsPlaceholder(kind: StorageKind, entries: StorageReader.StorageEntries,
                                  m: map<JsString, JsString>, view: seq<DisplayItem>)
    requires StorageReader.ReadsExactly(entries, m)
    requires RendersAs(kind, m, view)
    ensures view == [NoItems] <==> entries == []
    ensures entries != [] ==> NoItems !in view
  {
    StorageReader.EmptyStorageReadsEmpty(entries, m);
    if m != map[] && |view| > 0 {
      assert view[0].Item?;
    }
  }

  /** Every item shown for the cookie bucket has a non-empty key without
      surrounding whitespace, and an empty cookie header shows the
      placeholder. */
  lemma CookieViewKeysClean(cookie: JsString, jar: map<JsString, JsString>, view: seq<DisplayItem>)
    requires StorageReader.ParsesExactly(cookie, jar)
    requires RendersAs(Cookies, jar, view)
    ensures forall i :: 0 <= i < |view| && view[i].Item? ==> view[i].key != [] && IsUnpadded(view[i].key)
    ensures cookie == [] ==> view == [NoItems]
  {
    var pairs := StorageReader.SegmentPairs(StorageReader.CookieSegments(cookie));
    forall i | 0 <= i < |view| && view[i].Item? ensures view[i].key != [] && IsUnpadded(view[i].key) {
      var p :| 0 <= p < |pairs| && pairs[p].0 == view[i].key;
    }
    if cookie == [] {
      assert StorageReader.CookieSegments(cookie) == [[]];
      assert StorageReader.SegmentKey([]) == [];
      assert pairs == [];
    }
  }
}
