/** The message list read page by page, newest first, while the table may change between pages. */
module Paging {
  import opened Text
  import opened KeyOrder
  import opened Settings
  import opened Mailboxes

  type Table = map<int, Message>

  // ---- Which messages a request is about ----

  datatype Principal = Principal(isAdmin: bool, userId: int)

  datatype Filter = Filter(query: string, tag: string, owner: int, includeAll: bool)

  /** The filter the service builds for a list request and for a bulk deletion alike. */
  function FilterFor(p: Principal, query: string, tag: string): Filter {
    Filter(query, tag, p.userId, p.isAdmin)
  }

  /** Full-text or substring search, left to the database. */
  type Search = (string, Message) -> bool

  predicate MatchesText(search: Search, f: Filter, m: Message) {
    (Trim(f.query) == "" || search(f.query, m)) && (LowerTrim(f.tag) == "" || LowerTrim(f.tag) in m.tags)
  }

  /** What listing selects: its scope comes from the filter. */
  predicate Listed(search: Search, f: Filter, m: Message) {
    (f.includeAll || m.owner == f.owner) && MatchesText(search, f, m)
  }

  /** What bulk deletion selects: its scope comes from the principal. */
  predicate Deletable(search: Search, p: Principal, f: Filter, m: Message) {
    (p.isAdmin || m.owner == p.userId) && MatchesText(search, f, m)
  }

  /**
   * The message belongs to the principal, or the principal is an administrator; it has the tag, trimmed and in lower
   * case, unless that is blank; and the query finds it, unless that is blank.
   */
  predicate Wanted(search: Search, p: Principal, query: string, tag: string, m: Message) {
    && (m.owner == p.userId || p.isAdmin)
    && (Trim(tag) != "" ==> Lower(Trim(tag)) in m.tags)
    && (Trim(query) != "" ==> search(query, m))
  }

  lemma BothSelectWanted(search: Search, p: Principal, query: string, tag: string, m: Message)
    ensures Listed(search, FilterFor(p, query, tag), m) <==> Wanted(search, p, query, tag, m)
    ensures Deletable(search, p, FilterFor(p, query, tag), m) <==> Wanted(search, p, query, tag, m)
  {
    assert |Lower(Trim(tag))| == |Trim(tag)|;
  }

  // ---- One page ----

  function KeyOf(t: Table, id: int): Key
    requires id in t
  {
    Key(t[id].receivedAt, id)
  }

  /** The wanted messages behind the cursor. */
  function Keys(t: Table, wants: Message -> bool, cursor: Option<Key>): set<Key> {
    set id | id in t && wants(t[id]) && (cursor.None? || Before(KeyOf(t, id), cursor.value)) :: KeyOf(t, id)
  }

  datatype Page = Page(keys: seq<Key>, next: Option<Key>)

  function PageSize(limit: int): (n: nat)
    ensures n > 0
  {
    if limit <= 0 then 25 else limit
  }

  /** The newest wanted messages behind the cursor, and a cursor to the rest if there are more. */
  ghost function ListPage(t: Table, wants: Message -> bool, cursor: Option<Key>, limit: int): Page {
    var keys := Descending(Keys(t, wants, cursor));
    var n := PageSize(limit);
    if |keys| > n then Page(keys[..n], Some(keys[n - 1])) else Page(keys, None)
  }

  // ---- Following the cursors ----

  /**
   * The keys of all pages, fetching page i from `tables[i]`, and whether the last page was reached.
   * The tables may differ in any way: messages come and go between two fetches.
   */
  ghost function Walk(tables: seq<Table>, wants: Message -> bool, cursor: Option<Key>, limit: int): (seq<Key>, bool) {
    if tables == [] then ([], false)
    else
      var page := ListPage(tables[0], wants, cursor, limit);
      if page.next.None? then (page.keys, true)
      else
        var (rest, ended) := Walk(tables[1..], wants, page.next, limit);
        (page.keys + rest, ended)
  }

  predicate Behind(k: Key, cursor: Option<Key>) {
    cursor.None? || Before(k, cursor.value)
  }

  predicate InTable(t: Table, wants: Message -> bool, k: Key) {
    k.id in t && wants(t[k.id]) && KeyOf(t, k.id) == k
  }

  /** The message is wanted and has this key in every table of the walk. */
  ghost predicate Throughout(tables: seq<Table>, wants: Message -> bool, k: Key) {
    forall i :: 0 <= i < |tables| ==> InTable(tables[i], wants, k)
  }

  lemma PageSound(t: Table, wants: Message -> bool, cursor: Option<Key>, limit: int)
    ensures var page := ListPage(t, wants, cursor, limit);
            && SortedDown(page.keys) && |page.keys| <= PageSize(limit)
            && (forall k :: k in page.keys ==> InTable(t, wants, k) && Behind(k, cursor))
            && (page.next.Some? ==> |page.keys| == PageSize(limit) && page.next.value == page.keys[|page.keys| - 1])
  {
    var keys := Descending(Keys(t, wants, cursor));
    assert forall i :: 0 <= i < |keys| ==> keys[i] in keys;
    var page := ListPage(t, wants, cursor, limit);
    assert page.keys == keys[..|page.keys|];
    forall k | k in page.keys ensures InTable(t, wants, k) && Behind(k, cursor) {
      var i :| 0 <= i < |page.keys| && page.keys[i] == k;
      assert k == keys[i] && k in Keys(t, wants, cursor);
    }
  }

  /** A wanted message behind the cursor is on the page or behind the page's own cursor. */
  lemma PageComplete(t: Table, wants: Message -> bool, cursor: Option<Key>, limit: int, k: Key)
    requires InTable(t, wants, k) && Behind(k, cursor)
    ensures var page := ListPage(t, wants, cursor, limit);
            k in page.keys || (page.next.Some? && Before(k, page.next.value))
  {
    var keys := Descending(Keys(t, wants, cursor));
    assert k in Keys(t, wants, cursor);
    var j :| 0 <= j < |keys| && keys[j] == k;
    var n := PageSize(limit);
    if |keys| > n && j < n {
      assert keys[..n][j] == k;
    }
  }

  lemma AppendDown(a: seq<Key>, b: seq<Key>, last: Key)
    requires SortedDown(a) && SortedDown(b) && a != [] && a[|a| - 1] == last
    requires forall k :: k in b ==> Before(k, last)
    ensures SortedDown(a + b)
  {
    forall i, j | 0 <= i < j < |a + b| ensures Before((a + b)[j], (a + b)[i]) {
      if i < |a| <= j {
        assert b[j - |a|] in b;
      }
    }
  }

  /**
   * Whatever happens between the fetches: the pages are in strictly descending order, and list only messages that
   * were there.
   */
  lemma {:induction false} WalkSound(tables: seq<Table>, wants: Message -> bool, cursor: Option<Key>, limit: int)
    ensures var keys := Walk(tables, wants, cursor, limit).0;
            && SortedDown(keys)
            && forall k :: k in keys ==>
                 Behind(k, cursor) && exists i :: 0 <= i < |tables| && InTable(tables[i], wants, k)
  {
    if tables != [] {
      var page := ListPage(tables[0], wants, cursor, limit);
      PageSound(tables[0], wants, cursor, limit);
      if page.next.Some? {
        WalkSound(tables[1..], wants, page.next, limit);
        var rest := Walk(tables[1..], wants, page.next, limit).0;
        AppendDown(page.keys, rest, page.next.value);
        forall k | k in rest
            ensures Behind(k, cursor) && exists i :: 0 <= i < |tables| && InTable(tables[i], wants, k) {
          var i :| 0 <= i < |tables[1..]| && InTable(tables[1..][i], wants, k);
          assert InTable(tables[i + 1], wants, k);
          assert page.next.value in page.keys;
        }
      }
    }
  }

  /**
   * Whatever messages are inserted and deleted between the fetches: a message that is wanted
   * throughout is listed once the last page is reached (and, the order being strict, only once).
   */
  lemma {:induction false} WalkComplete(tables: seq<Table>, wants: Message -> bool, cursor: Option<Key>, limit: int,
                                        k: Key)
    requires Throughout(tables, wants, k) && Behind(k, cursor)
    requires Walk(tables, wants, cursor, limit).1
    ensures k in Walk(tables, wants, cursor, limit).0
  {
    var page := ListPage(tables[0], wants, cursor, limit);
    PageComplete(tables[0], wants, cursor, limit, k);
    if k !in page.keys {
      assert Throughout(tables[1..], wants, k);
      WalkComplete(tables[1..], wants, page.next, limit, k);
    }
  }

  /** One page of what the principal wants, in numbers: newest first, none left out, and as many as asked for. */
  lemma PageLaw(t: Table, search: Search, p: Principal, query: string, tag: string, cursor: Option<Key>, limit: int)
    ensures var wants := (m: Message) => Listed(search, FilterFor(p, query, tag), m);
            var page := ListPage(t, wants, cursor, limit);
            var n := if limit <= 0 then 25 else limit;
            && (forall i, j :: 0 <= i < j < |page.keys| ==>
                  page.keys[j].at < page.keys[i].at
                  || (page.keys[j].at == page.keys[i].at && page.keys[j].id < page.keys[i].id))
            && (forall k :: k in page.keys ==>
                  && k.id in t && t[k.id].receivedAt == k.at && Wanted(search, p, query, tag, t[k.id])
                  && (cursor.Some? ==> k.at < cursor.value.at || (k.at == cursor.value.at && k.id < cursor.value.id)))
            && (forall id :: id in t && Wanted(search, p, query, tag, t[id]) && Behind(KeyOf(t, id), cursor) ==>
                  KeyOf(t, id) in page.keys || (page.next.Some? && Before(KeyOf(t, id), page.next.value)))
            && |page.keys| <= n && (page.next.Some? ==> |page.keys| == n && page.next.value == page.keys[n - 1])
  {
    var wants := (m: Message) => Listed(search, FilterFor(p, query, tag), m);
    PageSound(t, wants, cursor, limit);
    var page := ListPage(t, wants, cursor, limit);
    forall k | k in page.keys ensures Wanted(search, p, query, tag, t[k.id]) {
      BothSelectWanted(search, p, query, tag, t[k.id]);
    }
    forall id | id in t && Wanted(search, p, query, tag, t[id]) && Behind(KeyOf(t, id), cursor)
      ensures KeyOf(t, id) in page.keys || (page.next.Some? && Before(KeyOf(t, id), page.next.value))
    {
      BothSelectWanted(search, p, query, tag, t[id]);
      PageComplete(t, wants, cursor, limit, KeyOf(t, id));
    }
  }

  /** There is a next page exactly if there are more wanted messages than the page has room for. */
  lemma NextPageLaw(t: Table, wants: Message -> bool, cursor: Option<Key>, limit: int)
    ensures var page := ListPage(t, wants, cursor, limit);
            var n := if limit <= 0 then 25 else limit;
            && (page.next.Some? <==> |Keys(t, wants, cursor)| > n)
            && |page.keys| == if |Keys(t, wants, cursor)| > n then n else |Keys(t, wants, cursor)|
  {
  }

  // ---- A table that does not change ----

  function Repeat(t: Table, n: nat): seq<Table> {
    seq(n, _ => t)
  }

  lemma NextIsBehind(t: Table, wants: Message -> bool, cursor: Option<Key>, limit: int, k: Key)
    requires ListPage(t, wants, cursor, limit).next.Some?
    requires k in Keys(t, wants, ListPage(t, wants, cursor, limit).next)
    ensures k in Keys(t, wants, cursor) && k !in ListPage(t, wants, cursor, limit).keys
  {
    var page := ListPage(t, wants, cursor, limit);
    PageSound(t, wants, cursor, limit);
    var last := page.keys[|page.keys| - 1];
    assert last in page.keys;
    assert Before(k, last) && Behind(last, cursor) && Behind(k, cursor);
  }

  lemma {:induction false} DownCount(ks: seq<Key>)
    requires SortedDown(ks)
    ensures |set k | k in ks| == |ks|
  {
    if ks != [] {
      var n := |ks| - 1;
      DownCount(ks[..n]);
      assert (set k | k in ks) == (set k | k in ks[..n]) + {ks[n]};
      assert ks[n] !in ks[..n];
    }
  }

  lemma PageShrinks(t: Table, wants: Message -> bool, cursor: Option<Key>, limit: int)
    requires ListPage(t, wants, cursor, limit).next.Some?
    ensures |Keys(t, wants, ListPage(t, wants, cursor, limit).next)| + PageSize(limit) == |Keys(t, wants, cursor)|
  {
    var all := Keys(t, wants, cursor);
    var page := ListPage(t, wants, cursor, limit);
    var behind := Keys(t, wants, page.next);
    var listed := set k | k in page.keys;
    PageSound(t, wants, cursor, limit);
    DownCount(page.keys);
    assert listed <= all by {
      assert forall k :: k in page.keys ==> InTable(t, wants, k) && Behind(k, cursor);
    }
    forall k | k in behind ensures k in all - listed {
      NextIsBehind(t, wants, cursor, limit, k);
    }
    forall k | k in all - listed ensures k in behind {
      PageComplete(t, wants, cursor, limit, k);
    }
    assert behind == all - listed;
    assert all == behind + listed;
  }

  /** On a fixed table the last page is reached exactly if the fetches, at least one, have room for all keys. */
  lemma {:induction false} WalkEnds(t: Table, wants: Message -> bool, cursor: Option<Key>, limit: int, n: nat)
    ensures Walk(Repeat(t, n), wants, cursor, limit).1 <==> n > 0 && n * PageSize(limit) >= |Keys(t, wants, cursor)|
    decreases n
  {
    if n > 0 {
      var page := ListPage(t, wants, cursor, limit);
      assert Repeat(t, n)[1..] == Repeat(t, n - 1);
      if page.next.Some? {
        PageShrinks(t, wants, cursor, limit);
        assert (n - 1) * PageSize(limit) == n * PageSize(limit) - PageSize(limit);
        assert |Keys(t, wants, cursor)| > PageSize(limit);
        WalkEnds(t, wants, page.next, limit, n - 1);
      } else {
        assert |Keys(t, wants, cursor)| <= PageSize(limit) <= n * PageSize(limit);
      }
    }
  }

  /** On a fixed table, the pages together are the sorted list of the wanted messages. */
  lemma WalkIsSortedList(t: Table, wants: Message -> bool, limit: int, n: nat)
    requires n > 0 && n * PageSize(limit) >= |Keys(t, wants, None)|
    ensures Walk(Repeat(t, n), wants, None, limit) == (Descending(Keys(t, wants, None)), true)
  {
    var keys := Walk(Repeat(t, n), wants, None, limit).0;
    WalkEnds(t, wants, None, limit, n);
    WalkSound(Repeat(t, n), wants, None, limit);
    forall k ensures k in keys <==> k in Descending(Keys(t, wants, None)) {
      if k in Keys(t, wants, None) {
        assert Throughout(Repeat(t, n), wants, k);
        WalkComplete(Repeat(t, n), wants, None, limit, k);
      }
      if k in keys {
        assert InTable(t, wants, k);
      }
    }
    SortedDownUnique(keys, Descending(Keys(t, wants, None)));
  }

  // ---- Bulk deletion ----

  function DeleteAll(t: Table, search: Search, p: Principal, f: Filter): Table {
    t - (set id | id in t && Deletable(search, p, f, t[id]))
  }

  /**
   * Deleting with a query, a tag and a principal removes exactly the messages that paging to the end
   * with the same query, tag and principal lists, and keeps every other message as it is.
   */
  lemma DeletesWhatIsListed(t: Table, search: Search, p: Principal, query: string, tag: string, limit: int, n: nat)
    requires var wants := (m: Message) => Listed(search, FilterFor(p, query, tag), m);
             n > 0 && n * PageSize(limit) >= |Keys(t, wants, None)|
    ensures var wants := (m: Message) => Listed(search, FilterFor(p, query, tag), m);
            var listed := Walk(Repeat(t, n), wants, None, limit).0;
            var left := DeleteAll(t, search, p, FilterFor(p, query, tag));
            && (forall id :: id in t ==> (id !in left <==> exists k :: k in listed && k.id == id))
            && (forall id :: id in left ==> id in t && left[id] == t[id])
  {
    var f := FilterFor(p, query, tag);
    var wants := (m: Message) => Listed(search, f, m);
    WalkIsSortedList(t, wants, limit, n);
    var listed := Walk(Repeat(t, n), wants, None, limit).0;
    assert forall k :: k in listed <==> k in Keys(t, wants, None);
    forall id | id in t ensures id !in DeleteAll(t, search, p, f) <==> exists k :: k in listed && k.id == id {
      if Deletable(search, p, f, t[id]) {
        assert KeyOf(t, id) in listed;
      }
    }
  }
}
