/** The object store as the gateway sees it: a flat map from key to body, reached
    through calls that may fail. Listings are paged; where a page ends is the
    server's choice. A mutation that reports an error may still have happened. */
module Buckets {
  import opened Bytes
  import opened Paths
  import opened CopySources

  type Objects = map<Bytes, Bytes>

  /** The most items in a page, and the most keys in a batch delete. */
  const PAGE_LIMIT: nat := 1000
  const BATCH_LIMIT: nat := 1000

  function KeysUnder(m: Objects, prefix: Bytes): set<Bytes> {
    set k | k in m && prefix <= k
  }

  /** s is m with some of the given keys deleted. */
  ghost predicate Shrunk(m: Objects, s: Objects, keys: seq<Bytes>) {
    && (forall k :: k in s ==> k in m && s[k] == m[k])
    && (forall k :: k in m && k !in keys ==> k in s)
  }

  // ---------------------------------------------------------------- listings

  /** With a delimiter, a key is rolled up to its part up to and including the
      first slash after the prefix. */
  function Rolled(prefix: Bytes, delim: bool, k: Bytes): Bytes
    requires prefix <= k
  {
    var rest := k[|prefix|..];
    if delim && !Slashless(rest) then prefix + rest[..FirstSlash(rest) + 1] else k
  }

  function Items(m: Objects, prefix: Bytes, delim: bool): set<Bytes> {
    set k | k in m && prefix <= k :: Rolled(prefix, delim, k)
  }

  predicate IsCommon(prefix: Bytes, delim: bool, item: Bytes) {
    delim && prefix <= item && !Slashless(item[|prefix|..])
  }

  function Remaining(items: set<Bytes>, token: Option<Bytes>): set<Bytes> {
    set i | i in items && (token.None? || Below(token.value, i))
  }

  datatype Entry = Entry(key: Bytes, size: nat)

  datatype Page = Page(contents: seq<Entry>, commonPrefixes: seq<Bytes>, truncated: bool, next: Option<Bytes>)

  function PageItems(p: Page): set<Bytes> {
    (set e | e in p.contents :: e.key) + (set c | c in p.commonPrefixes)
  }

  predicate Sorted(s: seq<Bytes>) {
    forall i, j :: 0 <= i < j < |s| ==> Below(s[i], s[j])
  }

  predicate SortedEntries(s: seq<Entry>) {
    forall i, j :: 0 <= i < j < |s| ==> Below(s[i].key, s[j].key)
  }

  predicate Greatest(x: Bytes, s: set<Bytes>) {
    x in s && forall y :: y in s ==> y == x || Below(y, x)
  }

  /** `chosen` is an initial part of `rest` in key order. */
  predicate Leads(chosen: set<Bytes>, rest: set<Bytes>) {
    chosen <= rest && forall x, y :: x in chosen && y in rest && y !in chosen ==> Below(x, y)
  }

  predicate Describes(m: Objects, prefix: Bytes, delim: bool, p: Page) {
    && SortedEntries(p.contents)
    && Sorted(p.commonPrefixes)
    && (forall e :: e in p.contents ==>
          !IsCommon(prefix, delim, e.key) && e.key in m && prefix <= e.key && e.size == |m[e.key]|)
    && (forall c :: c in p.commonPrefixes ==> IsCommon(prefix, delim, c))
  }

  predicate IsPage(m: Objects, prefix: Bytes, delim: bool, token: Option<Bytes>, limit: nat, fill: nat, p: Page) {
    var rest := Remaining(Items(m, prefix, delim), token);
    var chosen := PageItems(p);
    && Describes(m, prefix, delim, p)
    && Leads(chosen, rest)
    && |chosen| <= limit
    && (chosen == rest || |chosen| >= fill || |chosen| == limit)
    && (rest != {} ==> chosen != {})
    && p.truncated == (chosen != rest)
    && (p.truncated ==> p.next.Some? && Greatest(p.next.value, chosen))
  }

  /** A content item is a key; a common item is no key's content. */
  lemma ItemKind(m: Objects, prefix: Bytes, delim: bool, i: Bytes)
    requires i in Items(m, prefix, delim)
    ensures prefix <= i
    ensures !IsCommon(prefix, delim, i) ==> i in m
  {
    var k :| k in m && prefix <= k && i == Rolled(prefix, delim, k);
    var rest := k[|prefix|..];
    if delim && !Slashless(rest) {
      var cut := rest[..FirstSlash(rest) + 1];
      assert i[|prefix|..] == cut;
      assert cut[FirstSlash(rest)] == SLASH;
    }
  }

  lemma ItemsPlain(m: Objects, prefix: Bytes)
    ensures Items(m, prefix, false) == KeysUnder(m, prefix)
  {
    forall k | k in KeysUnder(m, prefix)
      ensures k in Items(m, prefix, false)
    {
      assert Rolled(prefix, false, k) == k;
    }
  }

  /** Resuming after the greatest item of a page leaves exactly the items that
      were not in it. */
  lemma ResumeAfter(items: set<Bytes>, token: Option<Bytes>, chosen: set<Bytes>, next: Bytes)
    requires Leads(chosen, Remaining(items, token)) && Greatest(next, chosen)
    ensures Remaining(items, Some(next)) == Remaining(items, token) - chosen
  {
    var rest := Remaining(items, token);
    forall i | i in items
      ensures Below(next, i) <==> i in rest && i !in chosen
    {
      if Below(next, i) {
        BelowAsymmetric(next, i);
        if token.Some? {
          BelowTransitive(token.value, next, i);
        }
      }
    }
  }

  // ---------------------------------------------------------------- the store

  /** What copying one key to another does and answers; a failed copy may have happened. */
  predicate CopyEffect(m: Objects, s: Objects, from: Bytes, to: Bytes, ok: bool, r: Result<()>) {
    if !ok then r == Err(Service) && (s == m || (from in m && s == m[to := m[from]]))
    else if from in m then r == Ok(()) && s == m[to := m[from]]
    else r == Err(NoSuchKey) && s == m
  }

  class Store {
    /** The least number of items the server puts in a page that has more to follow,
        unless the request asks for fewer. */
    const minFill: nat
    const bucket: Bytes

    var objects: Objects

    /** Every state the store has been in, one entry per mutating call. */
    ghost var trace: seq<Objects>
    /** Calls that reported an error of the service. */
    ghost var faults: nat
    /** Keys that a batch delete reported as kept. */
    ghost var refusals: nat

    ghost predicate Valid() {
      minFill >= 1
    }

    constructor (bucket: Bytes, fill: nat, initial: Objects)
      requires fill >= 1
      ensures Valid() && this.bucket == bucket && minFill == fill && objects == initial
      ensures trace == [] && faults == 0 && refusals == 0
    {
      this.bucket := bucket;
      minFill := fill;
      objects := initial;
      trace := [];
      faults, refusals := 0, 0;
    }

    /** HeadObject: the size of an object, or nothing when there is none. */
    method Head(k: Bytes) returns (r: Result<Option<nat>>)
      modifies this`faults
      ensures faults >= old(faults)
      ensures faults == old(faults) ==> r == Ok(if k in objects then Some(|objects[k]|) else None)
      ensures faults != old(faults) ==> r == Err(Service)
    {
      if * {
        faults := faults + 1;
        return Err(Service);
      }
      return Ok(if k in objects then Some(|objects[k]|) else None);
    }

    /** ListObjectsV2. */
    method List(prefix: Bytes, delim: bool, token: Option<Bytes>, limit: nat) returns (r: Result<Page>)
      requires Valid() && limit >= 1
      modifies this`faults
      ensures faults >= old(faults)
      ensures faults == old(faults) ==> r.Ok? && IsPage(objects, prefix, delim, token, limit, minFill, r.value)
      ensures faults != old(faults) ==> r == Err(Service)
    {
      if * {
        faults := faults + 1;
        return Err(Service);
      }
      var p := FillPage(objects, prefix, delim, token, limit, minFill);
      return Ok(p);
    }

    /** PutObject. */
    method Put(k: Bytes, body: Bytes) returns (r: Result<()>)
      modifies this`objects, this`trace, this`faults
      ensures trace == old(trace) + [objects]
      ensures faults >= old(faults)
      ensures faults == old(faults) ==> r == Ok(()) && objects == old(objects)[k := body]
      ensures faults != old(faults) ==>
                r == Err(Service) && (objects == old(objects) || objects == old(objects)[k := body])
    {
      r := Ok(());
      var applied := true;
      if * {
        faults := faults + 1;
        r := Err(Service);
        applied := *;
      }
      if applied {
        objects := objects[k := body];
      }
      trace := trace + [objects];
    }

    /** CopyObject: the source is named by a header that the store decodes. */
    method Copy(source: Bytes, to: Bytes) returns (r: Result<()>)
      modifies this`objects, this`trace, this`faults
      ensures trace == old(trace) + [objects]
      ensures faults >= old(faults)
      ensures forall from :: DecodeHeader(source) == Some((bucket, from)) ==>
                CopyEffect(old(objects), objects, from, to, faults == old(faults), r)
      ensures objects == old(objects) || exists from ::
                DecodeHeader(source) == Some((bucket, from)) && from in old(objects)
                && objects == old(objects)[to := old(objects)[from]]
    {
      hide DecodeHeader;
      var decoded := DecodeHeader(source);
      var found := decoded.Some? && decoded.value.0 == bucket && decoded.value.1 in objects;
      r := if found then Ok(()) else Err(NoSuchKey);
      var applied := true;
      if * {
        faults := faults + 1;
        r := Err(Service);
        applied := *;
      }
      if applied && found {
        objects := objects[to := objects[decoded.value.1]];
      }
      trace := trace + [objects];
      assert decoded.Some? && decoded.value.0 == bucket ==> decoded == Some((bucket, decoded.value.1));
    }

    /** DeleteObject; deleting a missing key succeeds. */
    method Delete(k: Bytes) returns (r: Result<()>)
      modifies this`objects, this`trace, this`faults
      ensures trace == old(trace) + [objects]
      ensures faults >= old(faults)
      ensures faults == old(faults) ==> r == Ok(()) && objects == old(objects) - {k}
      ensures faults != old(faults) ==>
                r == Err(Service) && (objects == old(objects) || objects == old(objects) - {k})
    {
      r := Ok(());
      var applied := true;
      if * {
        faults := faults + 1;
        r := Err(Service);
        applied := *;
      }
      if applied {
        objects := objects - {k};
      }
      trace := trace + [objects];
    }

    /** DeleteObjects: at most 1000 keys, each of which may be kept; the keys that
        were kept are reported beside an otherwise successful answer. */
    method DeleteBatch(keys: seq<Bytes>) returns (r: Result<set<Bytes>>)
      requires 1 <= |keys| <= BATCH_LIMIT
      modifies this`objects, this`trace, this`faults, this`refusals
      ensures trace == old(trace) + [objects]
      ensures faults >= old(faults) && refusals >= old(refusals)
      ensures r.Ok? <==> faults == old(faults)
      ensures r.Err? ==> r == Err(Service)
      ensures Shrunk(old(objects), objects, keys)
      ensures faults == old(faults) && refusals == old(refusals) ==>
                objects == old(objects) - (set k | k in keys)
    {
      var kept: set<Bytes> := *;
      var all := set k | k in keys;
      kept := kept * all;
      objects := objects - (all - kept);
      trace := trace + [objects];
      if * {
        faults := faults + 1;
        r := Err(Service);
      } else {
        refusals := refusals + |kept|;
        r := Ok(kept);
        assert |kept| == 0 ==> all - kept == all;
      }
    }
  }

  /** A page under construction: it holds the items of `rest` that are no longer in `left`. */
  predicate Filling(m: Objects, prefix: Bytes, delim: bool, rest: set<Bytes>, left: set<Bytes>, p: Page) {
    && left <= rest && PageItems(p) == rest - left
    && Describes(m, prefix, delim, p)
    && Leads(rest - left, rest)
    && (left != rest ==> p.next.Some? && Greatest(p.next.value, rest - left))
  }

  /** The server side of a listing: the least remaining items, up to the limit,
      with the page broken anywhere after the first `fill` items. */
  method FillPage(m: Objects, prefix: Bytes, delim: bool, token: Option<Bytes>, limit: nat, fill: nat)
      returns (p: Page)
    requires limit >= 1 && fill >= 1
    ensures IsPage(m, prefix, delim, token, limit, fill, p)
  {
    hide Filling, IsPage, Remaining, Items, Least;
    var rest := Remaining(Items(m, prefix, delim), token);
    var left := rest;
    p := Page([], [], true, None);
    var stop := false;
    PageStart(m, prefix, delim, rest);
    while left != {} && |rest| - |left| < limit && !stop
      invariant Filling(m, prefix, delim, rest, left, p)
      invariant |left| <= |rest| && |rest| - |left| <= limit
      invariant stop ==> |rest| - |left| >= fill
      decreases |left|
    {
      ghost var g := LeastExists(left);
      var x :| Least(x, left);
      PageStep(m, prefix, delim, token, rest, left, p, x);
      p := AddItem(m, prefix, delim, p, x);
      left := left - {x};
      var enough := *;
      stop := enough && |rest| - |left| >= fill;
    }
    PageEnd(m, prefix, delim, token, limit, fill, left, p);
    p := p.(truncated := left != {});
  }

  lemma PageStart(m: Objects, prefix: Bytes, delim: bool, rest: set<Bytes>)
    ensures Filling(m, prefix, delim, rest, rest, Page([], [], true, None))
  {
    assert rest - rest == {};
  }

  lemma PageEnd(m: Objects, prefix: Bytes, delim: bool, token: Option<Bytes>, limit: nat, fill: nat,
                left: set<Bytes>, p: Page)
    requires fill >= 1 && limit >= 1
    requires var rest := Remaining(Items(m, prefix, delim), token);
             && Filling(m, prefix, delim, rest, left, p)
             && |rest| - |left| <= limit
             && (left == {} || |rest| - |left| == limit || |rest| - |left| >= fill)
    ensures IsPage(m, prefix, delim, token, limit, fill, p.(truncated := left != {}))
  {
    hide Describes, Leads, Greatest, PageItems, Items;
    var rest := Remaining(Items(m, prefix, delim), token);
    CardDiff(rest, left);
    SamePage(m, prefix, delim, p, p.(truncated := left != {}));
    assert left == {} <==> rest - left == rest;
    assert left == rest <==> rest - left == {};
  }

  lemma SamePage(m: Objects, prefix: Bytes, delim: bool, p: Page, q: Page)
    requires p.contents == q.contents && p.commonPrefixes == q.commonPrefixes
    ensures PageItems(p) == PageItems(q)
    ensures Describes(m, prefix, delim, p) == Describes(m, prefix, delim, q)
  {
  }

  lemma CardDiff(rest: set<Bytes>, left: set<Bytes>)
    requires left <= rest
    ensures |rest - left| == |rest| - |left|
  {
    assert rest == (rest - left) + left;
  }

  /** A page with one more item. */
  function AddItem(m: Objects, prefix: Bytes, delim: bool, p: Page, x: Bytes): Page
    requires prefix <= x && (IsCommon(prefix, delim, x) || x in m)
  {
    if IsCommon(prefix, delim, x)
    then p.(commonPrefixes := p.commonPrefixes + [x], next := Some(x))
    else p.(contents := p.contents + [Entry(x, |m[x]|)], next := Some(x))
  }

  lemma PageStep(m: Objects, prefix: Bytes, delim: bool, token: Option<Bytes>,
                 rest: set<Bytes>, left: set<Bytes>, p: Page, x: Bytes)
    requires rest == Remaining(Items(m, prefix, delim), token)
    requires Filling(m, prefix, delim, rest, left, p) && Least(x, left)
    ensures prefix <= x && (IsCommon(prefix, delim, x) || x in m)
    ensures |left - {x}| == |left| - 1
    ensures Filling(m, prefix, delim, rest, left - {x}, AddItem(m, prefix, delim, p, x))
  {
    hide Items, IsCommon, Describes, PageItems;
    ItemKind(m, prefix, delim, x);
    assert rest - (left - {x}) == (rest - left) + {x};
    AddItemItems(m, prefix, delim, p, x);
    AddItemDescribes(m, prefix, delim, p, x);
  }

  lemma AddItemItems(m: Objects, prefix: Bytes, delim: bool, p: Page, x: Bytes)
    requires prefix <= x && (IsCommon(prefix, delim, x) || x in m)
    ensures PageItems(AddItem(m, prefix, delim, p, x)) == PageItems(p) + {x}
  {
    hide IsCommon;
    var q := AddItem(m, prefix, delim, p, x);
    if IsCommon(prefix, delim, x) {
      assert q.contents == p.contents;
    } else {
      var e := Entry(x, |m[x]|);
      assert e in q.contents;
      assert forall f :: f in q.contents <==> f in p.contents || f == e;
    }
  }

  lemma AddItemDescribes(m: Objects, prefix: Bytes, delim: bool, p: Page, x: Bytes)
    requires prefix <= x && (IsCommon(prefix, delim, x) || x in m)
    requires Describes(m, prefix, delim, p)
    requires forall y :: y in PageItems(p) ==> Below(y, x)
    ensures Describes(m, prefix, delim, AddItem(m, prefix, delim, p, x))
  {
    hide IsCommon;
    forall e | e in p.contents
      ensures Below(e.key, x)
    {
      assert e.key in PageItems(p);
    }
    forall c | c in p.commonPrefixes
      ensures Below(c, x)
    {
      assert c in PageItems(p);
    }
  }
}
