/**
 * The memo record and the value-level meaning of every `MemoManager`
 * operation: what the list looks like after an insert, an update, a delete or
 * a category assignment, which memos a page shows, how many pages there are
 * and which categories exist. The class in memo_manager.dfy is proved against
 * these functions; the lemmas here state what the store promises.
 */
module Memos {
  import opened JsNumber
  import opened JsArray
  import opened JsString
  import opened Password

  /**
   * A stored memo. `password` is None for an open memo and otherwise the hash
   * text of its code; `url` and `category` use "" for a missing value.
   */
  datatype Memo = Memo(
    id: int,
    title: string,
    url: string,
    body: string,
    password: Option<string>,
    category: string,
    createdAt: string)

  /** '기타' ("other"): the category of a new memo and of a memo without one. */
  const DefaultCategory: string := "기타"

  const ItemsPerPage: nat := 10

  /** JavaScript truthiness of an optional password argument: null and "" are both "no password". */
  predicate PasswordGiven(password: Option<string>) {
    password.Some? && password.value != ""
  }

  /** `password ? this.hashPassword(password) : otherwise`. */
  function PasswordField(password: Option<string>, otherwise: Option<string>): Option<string> {
    if PasswordGiven(password) then Some(HashString(password.value)) else otherwise
  }

  /** The record `addMemo` builds before inserting it. */
  function NewMemo(id: int, createdAt: string, title: string, url: string, body: string,
                   password: Option<string>): (m: Memo)
    ensures m.id == id && m.createdAt == createdAt
    ensures m.title == title && m.url == url && m.body == body
    ensures m.category == DefaultCategory
    ensures m.password.None? <==> !PasswordGiven(password)
    ensures PasswordGiven(password) ==> m.password == Some(HashString(password.value))
                                        && VerifyPassword(m.password.value, password.value)
  {
    var m := Memo(id, title, url, body, PasswordField(password, None), DefaultCategory, createdAt);
    assert PasswordGiven(password) ==> VerifyPassword(HashString(password.value), password.value) by {
      if PasswordGiven(password) { VerifyStoredHash(password.value, password.value); }
    }
    m
  }

  predicate HasId(memos: seq<Memo>, id: int) {
    exists i :: 0 <= i < |memos| && memos[i].id == id
  }

  /** `memos.find(m => m.id === id)`, as the position of the first memo with that id. */
  function IndexOf(memos: seq<Memo>, id: int): (r: Option<nat>)
    ensures r.None? <==> !HasId(memos, id)
    ensures r.Some? ==> r.value < |memos| && memos[r.value].id == id
    ensures r.Some? ==> forall j :: 0 <= j < r.value ==> memos[j].id != id
    decreases |memos|
  {
    if memos == [] then None
    else if memos[0].id == id then Some(0)
    else
      var rest := IndexOf(memos[1..], id);
      assert HasId(memos[1..], id) ==> HasId(memos, id) by {
        if HasId(memos[1..], id) {
          var i :| 0 <= i < |memos[1..]| && memos[1..][i].id == id;
          assert memos[i + 1].id == id;
        }
      }
      assert HasId(memos, id) ==> HasId(memos[1..], id) by {
        if HasId(memos, id) {
          var i :| 0 <= i < |memos| && memos[i].id == id;
          assert memos[1..][i - 1].id == id;
        }
      }
      if rest.None? then None else Some(rest.value + 1)
  }

  /** `updateMemo`: the first memo with the id gets the new text fields and, when a password is given, a new hash. */
  function Updated(memos: seq<Memo>, id: int, title: string, url: string, body: string,
                   password: Option<string>): (r: seq<Memo>)
    ensures |r| == |memos|
    ensures !HasId(memos, id) ==> r == memos
    ensures HasId(memos, id) ==>
      var k := IndexOf(memos, id).value;
      && (forall j :: 0 <= j < |r| && j != k ==> r[j] == memos[j])
      && r[k].id == memos[k].id && r[k].createdAt == memos[k].createdAt
      && r[k].category == memos[k].category
      && r[k].title == title && r[k].url == url && r[k].body == body
      && (PasswordGiven(password) ==> r[k].password == Some(HashString(password.value))
                                      && VerifyPassword(r[k].password.value, password.value))
      && (!PasswordGiven(password) ==> r[k].password == memos[k].password)
  {
    match IndexOf(memos, id)
    case None => memos
    case Some(k) =>
      assert PasswordGiven(password) ==> VerifyPassword(HashString(password.value), password.value) by {
        if PasswordGiven(password) { VerifyStoredHash(password.value, password.value); }
      }
      memos[k := memos[k].(title := title, url := url, body := body,
                           password := PasswordField(password, memos[k].password))]
  }

  /** The category assignment after a submit: the first memo with the id gets the classifier's answer. */
  function Recategorized(memos: seq<Memo>, id: int, category: string): (r: seq<Memo>)
    ensures |r| == |memos|
    ensures !HasId(memos, id) ==> r == memos
    ensures HasId(memos, id) ==>
      var k := IndexOf(memos, id).value;
      && (forall j :: 0 <= j < |r| && j != k ==> r[j] == memos[j])
      && r[k] == memos[k].(category := category)
  {
    match IndexOf(memos, id)
    case None => memos
    case Some(k) => memos[k := memos[k].(category := category)]
  }

  /** `deleteMemo`: every memo whose id differs, in the order they had. */
  function Removed(memos: seq<Memo>, id: int): (r: seq<Memo>)
    ensures !HasId(r, id)
    ensures forall i :: 0 <= i < |memos| && memos[i].id != id ==> memos[i] in r
    ensures forall m :: m in r ==> m in memos
  {
    Filter(memos, (m: Memo) => m.id != id)
  }

  /** Deleting from a concatenation deletes from each part: the survivors keep their relative order. */
  lemma RemovedKeepsOrder(a: seq<Memo>, b: seq<Memo>, id: int)
    ensures Removed(a + b, id) == Removed(a, id) + Removed(b, id)
  {
    FilterConcat(a, b, (m: Memo) => m.id != id);
  }

  /** Deleting an id that no memo has changes nothing. */
  lemma RemovedMissing(memos: seq<Memo>, id: int)
    requires !HasId(memos, id)
    ensures Removed(memos, id) == memos
  {
    FilterKeepsAll(memos, (m: Memo) => m.id != id);
  }

  /** Deleting twice is deleting once. */
  lemma RemovedTwice(memos: seq<Memo>, id: int)
    ensures Removed(Removed(memos, id), id) == Removed(memos, id)
  {
    RemovedMissing(Removed(memos, id), id);
  }

  /** Inserting a memo with a fresh id and then deleting that id restores the list. */
  lemma RemoveUndoesAdd(memos: seq<Memo>, m: Memo)
    requires !HasId(memos, m.id)
    ensures Removed([m] + memos, m.id) == memos
  {
    RemovedKeepsOrder([m], memos, m.id);
    RemovedMissing(memos, m.id);
    assert Removed([m], m.id) == [];
  }

  /** A fresh memo inserted at the front is the one an update by its id finds. */
  lemma IndexOfAdded(memos: seq<Memo>, m: Memo)
    ensures IndexOf([m] + memos, m.id) == Some(0)
  {
  }

  /**
   * A password outlives an update that gives none: create with code p, then
   * update the same memo without a password, and p still opens it.
   */
  lemma PasswordSurvivesUpdate(memos: seq<Memo>, id: int, createdAt: string,
                               title: string, url: string, body: string, code: string,
                               title': string, url': string, body': string)
    requires code != ""
    ensures var created := [NewMemo(id, createdAt, title, url, body, Some(code))] + memos;
            var updated := Updated(created, id, title', url', body', None);
            && updated[0].password.Some?
            && updated[0].password == created[0].password
            && VerifyPassword(updated[0].password.value, code)
  {
    var created := [NewMemo(id, createdAt, title, url, body, Some(code))] + memos;
    IndexOfAdded(memos, created[0]);
    assert HasId(created, id);
  }

  /** An update changes no id, so it finds the same memo again afterwards. */
  lemma UpdatedKeepsIds(memos: seq<Memo>, id: int, title: string, url: string, body: string,
                        password: Option<string>, other: int)
    ensures IndexOf(Updated(memos, id, title, url, body, password), other) == IndexOf(memos, other)
  {
    var r := Updated(memos, id, title, url, body, password);
    assert forall j :: 0 <= j < |r| ==> r[j].id == memos[j].id;
    IndexOfSameIds(memos, r, other);
  }

  lemma {:induction false} IndexOfSameIds(a: seq<Memo>, b: seq<Memo>, id: int)
    requires |a| == |b|
    requires forall j :: 0 <= j < |a| ==> a[j].id == b[j].id
    ensures IndexOf(a, id) == IndexOf(b, id)
    decreases |a|
  {
    if a != [] && a[0].id != id {
      IndexOfSameIds(a[1..], b[1..], id);
    }
  }

  // ---------------------------------------------------------------------------
  // Category filter and pages

  /** The filter is active when `selectedCategory` is a non-empty string. */
  predicate FilterActive(selected: Option<string>) {
    selected.Some? && selected.value != ""
  }

  /** The memos `getMemos` and `getTotalPages` work on: all of them, or those whose category is the selected one. */
  function Filtered(memos: seq<Memo>, selected: Option<string>): (r: seq<Memo>)
    ensures |r| <= |memos|
    ensures FilterActive(selected) ==>
      && (forall i :: 0 <= i < |r| ==> r[i].category == selected.value && r[i] in memos)
      && (forall i :: 0 <= i < |memos| && memos[i].category == selected.value ==> memos[i] in r)
    ensures !FilterActive(selected) ==> r == memos
  {
    if FilterActive(selected) then Filter(memos, (m: Memo) => m.category == selected.value)
    else memos
  }

  /** `Math.ceil(n / d)` for a natural n and a positive d. */
  function CeilDiv(n: nat, d: nat): (r: nat)
    requires d > 0
    ensures (r - 1) * d < n <= r * d
  {
    (n + d - 1) / d
  }

  /** `getTotalPages`. */
  function TotalPages(memos: seq<Memo>, selected: Option<string>): nat {
    CeilDiv(|Filtered(memos, selected)|, ItemsPerPage)
  }

  /** `slice((page - 1) * 10, (page - 1) * 10 + 10)`: page `page` of the list f. */
  function PageOf(f: seq<Memo>, page: int): seq<Memo> {
    var start := (page - 1) * ItemsPerPage;
    Slice(f, start, start + ItemsPerPage)
  }

  /** `getMemos(page)`: that page of the filtered memos. */
  function Page(memos: seq<Memo>, selected: Option<string>, page: int): seq<Memo> {
    PageOf(Filtered(memos, selected), page)
  }

  /**
   * Page p (p >= 1) holds the filtered memos from position (p - 1) * 10 on, at
   * most ten; every page before the last is full and every page after it is empty.
   */
  lemma PageContents(memos: seq<Memo>, selected: Option<string>, page: int)
    requires page >= 1
    ensures var r, f := Page(memos, selected, page), Filtered(memos, selected);
      && |r| <= ItemsPerPage
      && (forall i :: 0 <= i < |r| ==> (page - 1) * ItemsPerPage + i < |f|
                                       && r[i] == f[(page - 1) * ItemsPerPage + i])
      && (page < TotalPages(memos, selected) ==> |r| == ItemsPerPage)
      && (page == TotalPages(memos, selected) ==> r == f[(page - 1) * ItemsPerPage..])
      && (page > TotalPages(memos, selected) ==> r == [])
  {
    var f := Filtered(memos, selected);
    var start := (page - 1) * ItemsPerPage;
    var total := TotalPages(memos, selected);
    assert Page(memos, selected, page) == Slice(f, start, start + ItemsPerPage);
    PageStart(page, total, |f|);
    SliceNonNegative(f, start, start + ItemsPerPage);
  }

  /** Where page `page` starts relative to n memos split into `total` pages of ten. */
  lemma PageStart(page: int, total: int, n: nat)
    requires page >= 1
    requires (total - 1) * ItemsPerPage < n <= total * ItemsPerPage
    ensures var start := (page - 1) * ItemsPerPage;
            && start >= 0
            && (page < total ==> start + ItemsPerPage <= n)
            && (page == total ==> start < n <= start + ItemsPerPage)
            && (page > total ==> start >= n)
  {
  }

  /** Every memo on a page is a stored memo, and of the selected category when a filter is set. */
  lemma PageMatchesFilter(memos: seq<Memo>, selected: Option<string>, page: int)
    ensures forall m :: m in Page(memos, selected, page) ==>
              m in memos && (FilterActive(selected) ==> m.category == selected.value)
  {
    var f := Filtered(memos, selected);
    var r := Page(memos, selected, page);
    forall m | m in r ensures m in memos && (FilterActive(selected) ==> m.category == selected.value) {
      var i :| 0 <= i < |r| && r[i] == m;
      var j := SliceBound((page - 1) * ItemsPerPage, |f|) + i;
      assert r[i] == f[j];
    }
  }

  /** Pages 1 to k of f laid end to end. */
  function PagesOf(f: seq<Memo>, k: nat): seq<Memo> {
    if k == 0 then [] else PagesOf(f, k - 1) + PageOf(f, k)
  }

  /** The first m memos of f, or all of f when it is shorter. */
  function Prefix(f: seq<Memo>, m: nat): seq<Memo> {
    f[..if m < |f| then m else |f|]
  }

  /** Pages 1 to k laid end to end are the first 10k memos of f (all of f when it is shorter). */
  lemma {:induction false} PagesOfPrefix(f: seq<Memo>, k: nat)
    ensures PagesOf(f, k) == Prefix(f, k * ItemsPerPage)
  {
    if k == 0 {
      assert f[..0] == [];
    } else {
      var start := (k - 1) * ItemsPerPage;
      var end := start + ItemsPerPage;
      assert end == k * ItemsPerPage;
      assert PagesOf(f, k - 1) == Prefix(f, start) by { PagesOfPrefix(f, k - 1); }
      assert Prefix(f, start) + Slice(f, start, end) == Prefix(f, end) by {
        PrefixThenSlice(f, start, ItemsPerPage);
      }
      assert PagesOf(f, k) == PagesOf(f, k - 1) + Slice(f, start, end);
    }
  }

  /** The first `start` memos followed by the slice of `width` from there are the first `start + width`. */
  lemma PrefixThenSlice(f: seq<Memo>, start: nat, width: nat)
    ensures Prefix(f, start) + Slice(f, start, start + width) == Prefix(f, start + width)
  {
    SliceNonNegative(f, start, start + width);
    if start < |f| {
      var stop := if start + width < |f| then start + width else |f|;
      assert f[..start] + f[start..stop] == f[..stop];
    }
  }

  /**
   * Pages 1 to getTotalPages() together are the filtered memos in order: none
   * is shown twice and none is missing.
   */
  lemma PagesCoverFiltered(memos: seq<Memo>, selected: Option<string>)
    ensures PagesOf(Filtered(memos, selected), TotalPages(memos, selected)) == Filtered(memos, selected)
  {
    PagesOfPrefix(Filtered(memos, selected), TotalPages(memos, selected));
  }

  /**
   * Page numbers below 1 are not "out of range, empty": page 0 is empty, but
   * page -1 of fifteen memos is the first five, because `slice` counts a
   * negative start from the end.
   */
  lemma NonPositivePages(memos: seq<Memo>, selected: Option<string>)
    ensures Page(memos, selected, 0) == []
    ensures |Filtered(memos, selected)| == 15 ==>
            Page(memos, selected, -1) == Filtered(memos, selected)[..5]
  {
  }

  /** Clearing the filter shows every memo; with a filter the pages hold exactly the memos of that category. */
  lemma FilterIsolation(memos: seq<Memo>, category: string)
    requires category != ""
    ensures Filtered(memos, None) == memos && Filtered(memos, Some("")) == memos
    ensures forall m :: m in Filtered(memos, Some(category)) <==> m in memos && m.category == category
  {
  }

  // ---------------------------------------------------------------------------
  // Categories

  /** `m.category || '기타'`. */
  function DisplayCategory(m: Memo): string {
    if m.category == "" then DefaultCategory else m.category
  }

  function DisplayCategories(memos: seq<Memo>): (r: seq<string>)
    ensures |r| == |memos|
    ensures forall i :: 0 <= i < |memos| ==> r[i] == DisplayCategory(memos[i])
  {
    seq(|memos|, i requires 0 <= i < |memos| => DisplayCategory(memos[i]))
  }

  /** `getCategories`: `Array.from(new Set(memos.map(m => m.category || '기타'))).sort()`. */
  function Categories(memos: seq<Memo>): seq<string> {
    SortedDistinct(DisplayCategories(memos))
  }

  /**
   * The category list is strictly sorted (so free of repeats) and holds
   * exactly the categories of all memos, the filter aside, a missing category
   * counting as '기타'.
   */
  lemma CategoriesExact(memos: seq<Memo>)
    ensures StrictlySorted(Categories(memos))
    ensures forall c :: c in Categories(memos) <==>
                        exists i :: 0 <= i < |memos| && DisplayCategory(memos[i]) == c
  {
    var d := DisplayCategories(memos);
    forall c ensures c in d <==> exists i :: 0 <= i < |memos| && DisplayCategory(memos[i]) == c {
      if c in d {
        var i :| 0 <= i < |d| && d[i] == c;
        assert DisplayCategory(memos[i]) == c;
      }
    }
  }

  /** The category list depends only on which memos exist, not on their order. */
  lemma CategoriesIgnoreOrder(a: seq<Memo>, b: seq<Memo>)
    requires multiset(a) == multiset(b)
    ensures Categories(a) == Categories(b)
  {
    CategoriesExact(a);
    CategoriesExact(b);
    forall c ensures c in Categories(a) <==> c in Categories(b) {
      if c in Categories(a) {
        var i :| 0 <= i < |a| && DisplayCategory(a[i]) == c;
        assert a[i] in multiset(b);
        var j :| 0 <= j < |b| && b[j] == a[i];
      }
      if c in Categories(b) {
        var i :| 0 <= i < |b| && DisplayCategory(b[i]) == c;
        assert b[i] in multiset(a);
        var j :| 0 <= j < |a| && a[j] == b[i];
      }
    }
    StrictlySortedUnique(Categories(a), Categories(b));
  }

  // ---------------------------------------------------------------------------
  // Category classification

  /**
   * What `autoClassifyCategory` got back: the request threw (network or JSON
   * failure), the response was not ok, or an ok response whose `category`
   * field is absent (None) or a string.
   */
  datatype ClassifierReply = Threw | NotOk | Answered(category: Option<string>)

  /** `autoClassifyCategory`: the returned category, or '기타' whenever there is none. */
  function ClassifiedCategory(reply: ClassifierReply): (c: string)
    ensures c != ""
    ensures c == DefaultCategory || (reply.Answered? && reply.category == Some(c))
    ensures (reply.Threw? || reply.NotOk? || reply == Answered(None) || reply == Answered(Some("")))
            ==> c == DefaultCategory
    ensures reply.Answered? && reply.category.Some? && reply.category.value != ""
            ==> c == reply.category.value
  {
    match reply
    case Answered(Some(c)) => if c != "" then c else DefaultCategory
    case _ => DefaultCategory
  }
}
