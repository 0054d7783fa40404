/** What a directory listing is, independently of how it is paged: one entry per
    child name, directories first, then by name. */
module Listings {
  import opened Bytes
  import opened Paths
  import opened Buckets
  import opened Views

  /** n is the name of a directory directly below a prefix: some key runs through it. */
  predicate HasDir(m: Objects, prefix: Bytes, n: Bytes) {
    n != [] && Slashless(n) && KeysUnder(m, prefix + n + [SLASH]) != {}
  }

  /** n is the name of a file directly below a prefix. */
  predicate HasFile(m: Objects, prefix: Bytes, n: Bytes) {
    n != [] && Slashless(n) && prefix + n in m
  }

  predicate HasChild(m: Objects, prefix: Bytes, n: Bytes) {
    HasDir(m, prefix, n) || HasFile(m, prefix, n)
  }

  /** No name is both a file and a directory. */
  ghost predicate NoCollision(m: Objects, prefix: Bytes) {
    forall n :: !(HasDir(m, prefix, n) && HasFile(m, prefix, n))
  }

  /** The order a listing is sorted by. */
  predicate Precedes(a: Info, b: Info) {
    if a.isDir != b.isDir then a.isDir else Below(a.name, b.name)
  }

  predicate Ordered(s: seq<Info>) {
    forall i, j :: 0 <= i < j < |s| ==> Precedes(s[i], s[j])
  }

  predicate DistinctNames(s: seq<Info>) {
    forall i, j :: 0 <= i < j < |s| ==> s[i].name != s[j].name
  }

  /** An entry tells the truth about one child. */
  predicate Genuine(m: Objects, prefix: Bytes, e: Info) {
    if e.isDir then HasDir(m, prefix, e.name) && e.size == 0
    else HasFile(m, prefix, e.name) && e.size == |m[prefix + e.name]|
  }

  predicate Mentions(s: seq<Info>, n: Bytes) {
    exists e :: e in s && e.name == n
  }

  /** s is a listing of the directory with the given prefix. */
  ghost predicate Lists(m: Objects, prefix: Bytes, s: seq<Info>) {
    && Ordered(s)
    && DistinctNames(s)
    && (forall e :: e in s ==> Genuine(m, prefix, e))
    && (forall n :: HasChild(m, prefix, n) ==> Mentions(s, n))
  }

  lemma PrecedesStrict(a: Info, b: Info)
    requires Precedes(a, b)
    ensures a != b && !Precedes(b, a)
  {
    if a.isDir == b.isDir {
      BelowAsymmetric(a.name, b.name);
    }
  }

  /** Strictly sorted lists with the same elements are equal. */
  lemma {:induction false} OrderedUnique(s: seq<Info>, t: seq<Info>)
    requires Ordered(s) && Ordered(t) && forall e :: e in s <==> e in t
    ensures s == t
  {
    assert (s == [] || s[0] in s) && (t == [] || t[0] in t);
    if s != [] && t != [] {
      HeadsAgree(s, t);
      TailSame(s, t);
      OrderedUnique(s[1..], t[1..]);
      assert s == [s[0]] + s[1..] && t == [t[0]] + t[1..];
    }
  }

  lemma HeadsAgree(s: seq<Info>, t: seq<Info>)
    requires Ordered(s) && Ordered(t) && s != [] && t != [] && s[0] in t && t[0] in s
    ensures s[0] == t[0]
  {
    var i :| 0 <= i < |t| && t[i] == s[0];
    var j :| 0 <= j < |s| && s[j] == t[0];
    if i > 0 && j > 0 {
      PrecedesStrict(t[0], t[i]);
    }
  }

  lemma TailSame(s: seq<Info>, t: seq<Info>)
    requires Ordered(s) && Ordered(t) && s != [] && t != [] && s[0] == t[0]
    requires forall e :: e in s <==> e in t
    ensures forall e :: e in s[1..] <==> e in t[1..]
  {
    HeadNotInTail(s);
    HeadNotInTail(t);
    forall e
      ensures e in s[1..] <==> e in t[1..]
    {
      InTail(s, e);
      InTail(t, e);
    }
  }

  lemma InTail(s: seq<Info>, e: Info)
    requires s != []
    ensures e in s <==> e == s[0] || e in s[1..]
  {
    assert s == [s[0]] + s[1..];
  }

  lemma HeadNotInTail(s: seq<Info>)
    requires Ordered(s) && s != []
    ensures s[0] !in s[1..]
  {
    forall i | 0 <= i < |s[1..]|
      ensures s[1..][i] != s[0]
    {
      PrecedesStrict(s[0], s[i + 1]);
    }
  }

  /** Without collisions there is only one listing, so neither the page size nor
      the place of the page breaks can show. */
  lemma ListingUnique(m: Objects, prefix: Bytes, s: seq<Info>, t: seq<Info>)
    requires NoCollision(m, prefix) && Lists(m, prefix, s) && Lists(m, prefix, t)
    ensures s == t
  {
    ListedIn(m, prefix, s, t);
    ListedIn(m, prefix, t, s);
    OrderedUnique(s, t);
  }

  lemma ListedIn(m: Objects, prefix: Bytes, s: seq<Info>, t: seq<Info>)
    requires NoCollision(m, prefix) && Lists(m, prefix, s) && Lists(m, prefix, t)
    ensures forall e :: e in s ==> e in t
  {
    forall e | e in s
      ensures e in t
    {
      hide HasDir, HasFile;
      assert Genuine(m, prefix, e);
      assert HasChild(m, prefix, e.name);
      var f :| f in t && f.name == e.name;
      assert Genuine(m, prefix, f);
    }
  }

  // ---------------------------------------------------------------- from items to entries

  lemma RolledShape(prefix: Bytes, k: Bytes) returns (n: Bytes)
    requires prefix <= k && !Slashless(k[|prefix|..])
    ensures Slashless(n) && Rolled(prefix, true, k) == prefix + (n + [SLASH]) <= k
  {
    var rest := k[|prefix|..];
    var f := FirstSlash(rest);
    n := rest[..f];
    assert rest[..f + 1] == n + [SLASH];
    assert k == prefix + (n + [SLASH]) + rest[f + 1..];
  }

  /** A rolled-up item is prefix, name, slash; its name is a directory. */
  lemma CommonItem(m: Objects, prefix: Bytes, i: Bytes)
    requires i in Items(m, prefix, true) && IsCommon(prefix, true, i)
    ensures var n := RelativeName(prefix, i); i == prefix + n + [SLASH] && (n != [] ==> HasDir(m, prefix, n))
  {
    hide RelativeName, Slashless;
    var k :| k in m && prefix <= k && i == Rolled(prefix, true, k);
    assert Slashless(k[|prefix|..]) ==> i == k;
    var n := RolledShape(prefix, k);
    RolledName(prefix, n, i);
    assert k in KeysUnder(m, prefix + n + [SLASH]);
  }

  lemma RolledName(prefix: Bytes, n: Bytes, i: Bytes)
    requires i == prefix + (n + [SLASH])
    ensures RelativeName(prefix, i) == n && i == prefix + n + [SLASH]
  {
    assert TrimSuffixSlash(i) == prefix + n;
    assert (prefix + n)[|prefix|..] == n;
  }

  /** A content item is the prefix itself or a file directly below it. */
  lemma ContentItem(m: Objects, prefix: Bytes, i: Bytes)
    requires i in m && prefix <= i && !IsCommon(prefix, true, i)
    ensures var n := RelativeName(prefix, i);
            && (i == prefix <==> n == [])
            && (i != prefix ==> i == prefix + n && HasFile(m, prefix, n) && i[|i| - 1] != SLASH)
  {
    var n := i[|prefix|..];
    assert i == prefix + n;
    if i != prefix {
      assert n[|n| - 1] == i[|i| - 1];
    }
  }

  /** Every child name is the name of some item. */
  lemma ChildHasItem(m: Objects, prefix: Bytes, n: Bytes) returns (i: Bytes)
    requires HasChild(m, prefix, n)
    ensures i in Items(m, prefix, true) && RelativeName(prefix, i) == n
  {
    if HasFile(m, prefix, n) {
      i := prefix + n;
      assert i[|prefix|..] == n;
      assert Rolled(prefix, true, i) == i;
      FileName(prefix, n);
    } else {
      i := prefix + n + [SLASH];
      var k :| k in KeysUnder(m, i);
      DirRolled(prefix, n, k);
      RolledName(prefix, n, i);
    }
  }

  lemma FileName(prefix: Bytes, n: Bytes)
    requires n != [] && Slashless(n)
    ensures RelativeName(prefix, prefix + n) == n
  {
    var i := prefix + n;
    assert i[|i| - 1] == n[|n| - 1];
    assert i[|prefix|..] == n;
  }

  lemma DirRolled(prefix: Bytes, n: Bytes, k: Bytes)
    requires Slashless(n) && prefix + n + [SLASH] <= k
    ensures prefix <= k && Rolled(prefix, true, k) == prefix + n + [SLASH]
  {
    PrefixTransitive(prefix, prefix + n + [SLASH], k);
    var rest := k[|prefix|..];
    assert rest[|n|] == SLASH;
    assert rest[..|n|] == n;
    assert forall j | 0 <= j < |n| :: rest[j] == n[j];
    assert FirstSlash(rest) == |n|;
    assert rest[..|n| + 1] == n + [SLASH];
  }

  /** The entries collected from a set of items, each name kept once. */
  ghost predicate Collected(m: Objects, prefix: Bytes, items: set<Bytes>, infos: seq<Info>, seen: set<Bytes>) {
    && DistinctNames(infos)
    && (forall n :: n in seen <==> Mentions(infos, n))
    && (forall e :: e in infos ==> Genuine(m, prefix, e))
    && (forall i :: i in items && RelativeName(prefix, i) != [] ==> RelativeName(prefix, i) in seen)
  }

  lemma CollectedNone(m: Objects, prefix: Bytes, items: set<Bytes>)
    ensures Collected(m, prefix, items - Remaining(items, None), [], {})
  {
  }

  lemma PageMembers(m: Objects, prefix: Bytes, token: Option<Bytes>, limit: nat, fill: nat, p: Page)
    requires IsPage(m, prefix, true, token, limit, fill, p)
    ensures forall c :: c in p.commonPrefixes ==> c in Items(m, prefix, true) && IsCommon(prefix, true, c)
    ensures forall e :: e in p.contents ==>
              e.key in m && prefix <= e.key && !IsCommon(prefix, true, e.key) && e.size == |m[e.key]|
  {
    hide Items;
    forall c | c in p.commonPrefixes
      ensures c in Items(m, prefix, true)
    {
      assert c in PageItems(p);
    }
  }

  /** Once a page has been collected, what is done is all that does not remain. */
  lemma CollectedMore(m: Objects, prefix: Bytes, token: Option<Bytes>, fill: nat, p: Page,
                      infos: seq<Info>, seen: set<Bytes>)
    requires IsPage(m, prefix, true, token, PAGE_LIMIT, fill, p)
    requires var items := Items(m, prefix, true);
             Collected(m, prefix, items - Remaining(items, token) + PageItems(p), infos, seen)
    ensures var items := Items(m, prefix, true);
            if p.truncated
            then && p.next.Some?
                 && Collected(m, prefix, items - Remaining(items, p.next), infos, seen)
                 && |Remaining(items, p.next)| < |Remaining(items, token)|
            else Collected(m, prefix, items, infos, seen)
  {
    hide Items, Collected, Describes, PageItems, Leads, Greatest;
    var items := Items(m, prefix, true);
    var rest, chosen := Remaining(items, token), PageItems(p);
    PageLeads(chosen, rest);
    if p.truncated {
      ResumeAfter(items, token, chosen, p.next.value);
      hide Remaining;
      assert p.next == Some(p.next.value);
      CardDiff(rest, chosen);
      assert rest <= items by {
        RemainingWithin(items, token);
      }
      assert items - rest + chosen == items - (rest - chosen);
      assert |chosen| > 0;
    } else {
      assert items - rest + rest == items;
    }
  }

  lemma PageLeads(chosen: set<Bytes>, rest: set<Bytes>)
    ensures Leads(chosen, rest) ==> chosen <= rest
  {
  }

  lemma RemainingWithin(items: set<Bytes>, token: Option<Bytes>)
    ensures Remaining(items, token) <= items
  {
  }

  /** Adding the entry of one more item unless its name has been seen. */
  lemma CollectNew(m: Objects, prefix: Bytes, items: set<Bytes>, infos: seq<Info>, seen: set<Bytes>, i: Bytes, e: Info)
    requires Collected(m, prefix, items, infos, seen)
    requires RelativeName(prefix, i) == e.name && e.name !in seen && Genuine(m, prefix, e)
    ensures Collected(m, prefix, items + {i}, infos + [e], seen + {e.name})
  {
    hide RelativeName, Genuine;
    var infos' := infos + [e];
    assert !Mentions(infos, e.name);
    assert infos'[|infos|] == e;
    forall n
      ensures n in seen + {e.name} <==> Mentions(infos', n)
    {
      if n == e.name {
        assert e in infos';
      } else if Mentions(infos, n) {
        var f :| f in infos && f.name == n;
        assert f in infos';
      }
    }
  }

  lemma CollectOld(m: Objects, prefix: Bytes, items: set<Bytes>, infos: seq<Info>, seen: set<Bytes>, i: Bytes)
    requires Collected(m, prefix, items, infos, seen)
    requires RelativeName(prefix, i) == [] || RelativeName(prefix, i) in seen
    ensures Collected(m, prefix, items + {i}, infos, seen)
  {
  }

  // ---------------------------------------------------------------- collisions on one page

  /** A name that is a directory is listed as one, even if it is a file too. */
  ghost predicate DirsWin(m: Objects, prefix: Bytes, infos: seq<Info>) {
    forall e :: e in infos && HasDir(m, prefix, e.name) ==> e.isDir
  }

  /** Every directory of a page is listed as one, unless an earlier page had its name. */
  ghost predicate ShowsDirs(prefix: Bytes, cps: seq<Bytes>, seen0: set<Bytes>, infos: seq<Info>) {
    forall c :: c in cps ==>
      var n := RelativeName(prefix, c); n == [] || n in seen0 || Info(n, 0, true) in infos
  }

  predicate FitsOnePage(m: Objects, prefix: Bytes, fill: nat) {
    |Items(m, prefix, true)| <= fill && |Items(m, prefix, true)| <= PAGE_LIMIT
  }

  lemma SmallerSet(a: set<Bytes>, b: set<Bytes>)
    requires a <= b && |a| >= |b|
    ensures a == b
  {
    assert |b - a| == |b| - |a|;
  }

  lemma OnePage(m: Objects, prefix: Bytes, fill: nat, p: Page)
    requires IsPage(m, prefix, true, None, PAGE_LIMIT, fill, p) && FitsOnePage(m, prefix, fill)
    ensures !p.truncated && PageItems(p) == Items(m, prefix, true)
  {
    hide Items, PageItems, Describes, Greatest;
    var items := Items(m, prefix, true);
    assert Remaining(items, None) == items;
    if PageItems(p) != items {
      SmallerSet(PageItems(p), items);
    }
  }

  lemma DirOnPage(m: Objects, prefix: Bytes, fill: nat, p: Page, n: Bytes)
    requires IsPage(m, prefix, true, None, PAGE_LIMIT, fill, p) && PageItems(p) == Items(m, prefix, true)
    requires HasDir(m, prefix, n)
    ensures prefix + n + [SLASH] in p.commonPrefixes
  {
    var i := prefix + n + [SLASH];
    var k :| k in KeysUnder(m, i);
    DirRolled(prefix, n, k);
    hide Items, Remaining, Leads, Greatest;
    assert i in Items(m, prefix, true) by {
      InItems(m, prefix, k);
    }
    assert i[|prefix|..][|n|] == SLASH;
    assert IsCommon(prefix, true, i);
  }

  lemma InItems(m: Objects, prefix: Bytes, k: Bytes)
    requires k in m && prefix <= k
    ensures Rolled(prefix, true, k) in Items(m, prefix, true)
  {
  }

  /** When the whole directory comes on one page, directories win. */
  lemma OnePageWins(m: Objects, prefix: Bytes, fill: nat, p: Page, infos: seq<Info>)
    requires IsPage(m, prefix, true, None, PAGE_LIMIT, fill, p) && FitsOnePage(m, prefix, fill)
    requires DistinctNames(infos) && ShowsDirs(prefix, p.commonPrefixes, {}, infos)
    ensures DirsWin(m, prefix, infos)
  {
    hide IsPage, FitsOnePage, RelativeName;
    OnePage(m, prefix, fill, p);
    forall e | e in infos && HasDir(m, prefix, e.name)
      ensures e.isDir
    {
      var i := prefix + e.name + [SLASH];
      DirOnPage(m, prefix, fill, p, e.name);
      assert prefix + (e.name + [SLASH]) == i;
      RolledName(prefix, e.name, i);
      assert Info(e.name, 0, true) in infos;
    }
  }

  /** Where directories win there is only one listing, collisions or not. */
  lemma DirsWinUnique(m: Objects, prefix: Bytes, s: seq<Info>, t: seq<Info>)
    requires Lists(m, prefix, s) && Lists(m, prefix, t) && DirsWin(m, prefix, s) && DirsWin(m, prefix, t)
    ensures s == t
  {
    DirsWinIn(m, prefix, s, t);
    DirsWinIn(m, prefix, t, s);
    OrderedUnique(s, t);
  }

  lemma DirsWinIn(m: Objects, prefix: Bytes, s: seq<Info>, t: seq<Info>)
    requires Lists(m, prefix, s) && Lists(m, prefix, t) && DirsWin(m, prefix, s) && DirsWin(m, prefix, t)
    ensures forall e :: e in s ==> e in t
  {
    forall e | e in s
      ensures e in t
    {
      hide HasDir, HasFile;
      assert Genuine(m, prefix, e);
      assert HasChild(m, prefix, e.name);
      var f :| f in t && f.name == e.name;
      assert Genuine(m, prefix, f);
    }
  }

  lemma CollectedDistinct(m: Objects, prefix: Bytes, items: set<Bytes>, infos: seq<Info>, seen: set<Bytes>)
    requires Collected(m, prefix, items, infos, seen)
    ensures DistinctNames(infos)
  {
  }

  lemma SortedWins(m: Objects, prefix: Bytes, infos: seq<Info>)
    ensures DirsWin(m, prefix, infos) ==> DirsWin(m, prefix, SortInfos(infos))
  {
    hide HasDir, SortInfos;
    SameMembers(infos, SortInfos(infos));
  }

  /** A listing is a block of directories and then a block of files, each in strictly
      ascending byte order of names. */
  lemma ListingShape(s: seq<Info>) returns (dirs: nat)
    requires Ordered(s)
    ensures dirs <= |s| && forall i :: 0 <= i < |s| ==> (s[i].isDir <==> i < dirs)
    ensures forall i, j :: 0 <= i < j < dirs || dirs <= i < j < |s| ==> Below(s[i].name, s[j].name)
  {
    dirs := 0;
    while dirs < |s| && s[dirs].isDir
      invariant dirs <= |s| && forall i :: 0 <= i < dirs ==> s[i].isDir
    {
      dirs := dirs + 1;
    }
    assert forall i :: dirs < i < |s| ==> Precedes(s[dirs], s[i]);
  }

  // ---------------------------------------------------------------- sorting

  function Insert(e: Info, s: seq<Info>): (r: seq<Info>)
    ensures multiset(r) == multiset(s) + multiset{e}
  {
    if s == [] then [e]
    else if Precedes(e, s[0]) then [e] + s
    else
      assert s == [s[0]] + s[1..];
      [s[0]] + Insert(e, s[1..])
  }

  function SortInfos(s: seq<Info>): (r: seq<Info>)
    ensures multiset(r) == multiset(s)
  {
    if s == [] then []
    else
      assert s == [s[0]] + s[1..];
      Insert(s[0], SortInfos(s[1..]))
  }

  lemma SameMembers(s: seq<Info>, t: seq<Info>)
    requires multiset(s) == multiset(t)
    ensures forall e :: e in s <==> e in t
  {
    forall e
      ensures e in s <==> e in t
    {
      assert e in s <==> e in multiset(s);
      assert e in t <==> e in multiset(t);
    }
  }

  lemma PrecedesTotal(a: Info, b: Info)
    requires a.name != b.name
    ensures Precedes(a, b) || Precedes(b, a)
  {
    BelowTotal(a.name, b.name);
  }

  lemma PrecedesTransitive(a: Info, b: Info, c: Info)
    requires Precedes(a, b) && Precedes(b, c)
    ensures Precedes(a, c)
  {
    if a.isDir == b.isDir == c.isDir {
      BelowTransitive(a.name, b.name, c.name);
    }
  }

  lemma {:induction false} InsertOrdered(e: Info, s: seq<Info>)
    requires Ordered(s) && forall f :: f in s ==> f.name != e.name
    ensures Ordered(Insert(e, s))
  {
    if s != [] {
      if Precedes(e, s[0]) {
        forall i | 0 < i < |s|
          ensures Precedes(e, s[i])
        {
          PrecedesTransitive(e, s[0], s[i]);
        }
      } else {
        PrecedesTotal(e, s[0]);
        InsertOrdered(e, s[1..]);
        ConsOrdered(s[0], Insert(e, s[1..]), e, s[1..]);
      }
    }
  }

  lemma ConsOrdered(h: Info, r: seq<Info>, e: Info, t: seq<Info>)
    requires Ordered(r) && multiset(r) == multiset(t) + multiset{e}
    requires Precedes(h, e) && forall f :: f in t ==> Precedes(h, f)
    ensures Ordered([h] + r)
  {
    forall i | 0 <= i < |r|
      ensures Precedes(h, r[i])
    {
      assert r[i] in multiset(r);
      assert r[i] == e || r[i] in multiset(t);
    }
  }

  lemma {:induction false} SortOrdered(s: seq<Info>)
    requires DistinctNames(s)
    ensures Ordered(SortInfos(s))
  {
    if s != [] {
      SortOrdered(s[1..]);
      SameMembers(s[1..], SortInfos(s[1..]));
      forall f | f in SortInfos(s[1..])
        ensures f.name != s[0].name
      {
        assert f in s[1..];
      }
      InsertOrdered(s[0], SortInfos(s[1..]));
    }
  }

  lemma {:induction false} OrderedDistinct(s: seq<Info>, t: seq<Info>)
    requires DistinctNames(s) && Ordered(t) && multiset(s) == multiset(t)
    ensures DistinctNames(t)
  {
    SameMembers(s, t);
    forall i, j | 0 <= i < j < |t|
      ensures t[i].name != t[j].name
    {
      PrecedesStrict(t[i], t[j]);
      assert t[i] in s && t[j] in s;
    }
  }

  /** Sorting what was collected from all items gives a listing. */
  lemma SortedIsListing(m: Objects, prefix: Bytes, infos: seq<Info>, seen: set<Bytes>)
    requires Collected(m, prefix, Items(m, prefix, true), infos, seen)
    ensures Lists(m, prefix, SortInfos(infos))
  {
    hide Items, RelativeName, Genuine, Ordered, DistinctNames, SortInfos;
    var s := SortInfos(infos);
    SortOrdered(infos);
    OrderedDistinct(infos, s);
    SameMembers(infos, s);
    forall n | HasChild(m, prefix, n)
      ensures Mentions(s, n)
    {
      var i := ChildHasItem(m, prefix, n);
      assert n != [] by {
        assert HasDir(m, prefix, n) || HasFile(m, prefix, n);
      }
      assert Mentions(infos, n);
      var e :| e in infos && e.name == n;
      assert e in s;
    }
  }

  // ---------------------------------------------------------------- Stat and ReadDir

  lemma KeySnoc(root: Bytes, a: seq<Bytes>, n: Bytes)
    ensures KeyOf(root, a + [n]) == (if a == [] then root else KeyOf(root, a) + [SLASH]) + n
  {
    hide Join;
    if a == [] {
      assert a + [n] == [n];
      JoinSingle(n);
    } else {
      JoinSnoc(a, n);
      var j := Join(a);
      assert root + (j + [SLASH] + n) == root + j + [SLASH] + n;
    }
  }

  /** The keys of a child are read off the directory key of its parent. */
  lemma ChildKeys(root: Bytes, d: Bytes, n: Bytes)
    requires ValidRoot(root) && Settled(d) && WellFormedSegment(n)
    ensures Settled(Child(d, n)) && Child(d, n) != ROOT
    ensures JoinRoot(root, Child(d, n)) == DirKey(root, d) + n
    ensures DirKey(root, Child(d, n)) == DirKey(root, d) + n + [SLASH]
  {
    ChildSettled(d, n);
    hide CleanFTPPath, JoinRoot, DirKey, Split, Join, WellFormedSegment, Child, PathOf, KeyOf, Normal;
    SettledKeys(root, d);
    SettledKeys(root, Child(d, n));
    SettledFixed(d);
    PathOfSegs(Segs(d));
    DirKeyShape(root, Child(d, n));
    KeySnoc(root, Segs(d), n);
  }

  lemma ChildSettled(d: Bytes, n: Bytes)
    requires Settled(d) && WellFormedSegment(n)
    ensures Settled(Child(d, n)) && Child(d, n) != ROOT && Segs(Child(d, n)) == Segs(d) + [n]
  {
    hide CleanFTPPath, Split, EndsInSpace, Child;
    ChildCleaned(d, n);
    SegsOfPath(Child(d, n));
    EndsInSpaceLast(Segs(d) + [n]);
  }

  /** What Stat answers for a child, told by the children of the directory: a file
      with its size, else a directory, each under the child's own name, else nothing. */
  lemma StatAgreesWithListing(v: View, m: Objects, d: Bytes, n: Bytes)
    requires ValidRoot(v.root) && Settled(d) && WellFormedSegment(n)
    ensures var prefix := DirKey(v.root, d);
            StatOf(v, m, Child(d, n)) ==
            if HasFile(m, prefix, n) then Ok(Info(n, |m[prefix + n]|, false))
            else if HasDir(m, prefix, n) then Ok(Info(n, 0, true))
            else Err(NotExist)
  {
    ChildParts(d, n);
    hide CleanFTPPath, JoinRoot, DirKey, Settled, Base, Child;
    ChildKeys(v.root, d, n);
    SettledFixed(Child(d, n));
  }

  /** The same, against any listing: Stat succeeds exactly for the listed names, and
      with no collision its whole answer is the listed entry. */
  lemma StatAgreesWithReadDir(v: View, m: Objects, d: Bytes, n: Bytes, s: seq<Info>)
    requires ValidRoot(v.root) && Settled(d) && WellFormedSegment(n)
    requires Lists(m, DirKey(v.root, d), s)
    ensures StatOf(v, m, Child(d, n)).Ok? <==> Mentions(s, n)
    ensures NoCollision(m, DirKey(v.root, d)) ==>
              forall e :: e in s && e.name == n ==> StatOf(v, m, Child(d, n)) == Ok(e)
  {
    hide StatOf, HasDir, HasFile, DirKey, Child, Settled;
    StatAgreesWithListing(v, m, d, n);
    if Mentions(s, n) {
      var e :| e in s && e.name == n;
      assert Genuine(m, DirKey(v.root, d), e);
    }
    forall e | e in s && e.name == n && NoCollision(m, DirKey(v.root, d))
      ensures StatOf(v, m, Child(d, n)) == Ok(e)
    {
      assert Genuine(m, DirKey(v.root, d), e);
    }
  }

  predicate WellFormedSegs(segs: seq<Bytes>) {
    forall i :: 0 <= i < |segs| ==> WellFormedSegment(segs[i]) || (segs[i] == [] && i == |segs| - 1)
  }

  /** Keys whose segments below the root are well-formed, a last empty one apart. */
  predicate WellFormedKey(root: Bytes, k: Bytes) {
    root <= k ==> WellFormedSegs(Split(k[|root|..]))
  }

  /** In a bucket of such keys every listed name is well-formed, so Stat can be
      asked about every listed name. */
  lemma ListedNamesWellFormed(v: View, m: Objects, d: Bytes, n: Bytes)
    requires ValidRoot(v.root) && Settled(d)
    requires forall k :: k in m ==> WellFormedKey(v.root, k)
    requires HasChild(m, DirKey(v.root, d), n)
    ensures WellFormedSegment(n)
  {
    hide Settled, WellFormedSegment, DirKey, WellFormedKey;
    var prefix := DirKey(v.root, d);
    if HasFile(m, prefix, n) {
      SplitStart(n, []);
      assert n + [] == n;
      NameOfKey(v.root, d, n, n);
    } else {
      var k :| k in KeysUnder(m, prefix + n + [SLASH]);
      var tail := k[|prefix|..];
      assert k == prefix + tail;
      var rest := k[|prefix + n|..];
      assert tail == n + rest && rest[0] == SLASH;
      SplitStart(n, rest);
      NameOfKey(v.root, d, n, tail);
    }
  }

  lemma SplitStart(n: Bytes, rest: Bytes)
    requires Slashless(n) && (rest == [] || rest[0] == SLASH)
    ensures Split(n + rest)[0] == n
  {
    if rest == [] {
      assert n + rest == n;
    } else {
      SplitCons(n, rest[1..]);
      assert n + rest == n + [SLASH] + rest[1..];
    }
  }

  lemma NameOfKey(root: Bytes, d: Bytes, n: Bytes, tail: Bytes)
    requires ValidRoot(root) && Settled(d) && n != [] && Split(tail)[0] == n
    requires WellFormedKey(root, DirKey(root, d) + tail)
    ensures WellFormedSegment(n)
  {
    KeySegments(root, d, tail);
    hide Settled, WellFormedSegment, DirKey, Split;
    var segs := Segs(d) + Split(tail);
    assert segs[|Segs(d)|] == n;
  }

  /** The segments of a key below a directory start with those of the directory. */
  lemma KeySegments(root: Bytes, d: Bytes, tail: Bytes)
    requires ValidRoot(root) && Settled(d)
    ensures root <= DirKey(root, d) + tail
    ensures Split((DirKey(root, d) + tail)[|root|..]) == Segs(d) + Split(tail)
  {
    hide CleanFTPPath, JoinRoot, DirKey, Split, Join, EndsInSpace;
    SettledFixed(d);
    SettledKeys(root, d);
    KeysUnderRoot(root, d);
    PathOfSegs(Segs(d));
    var k := DirKey(root, d) + tail;
    if Segs(d) == [] {
      assert k[|root|..] == tail;
    } else {
      SplitTail(Segs(d), tail);
      assert k[|root|..] == Join(Segs(d)) + [SLASH] + tail;
    }
  }
}
