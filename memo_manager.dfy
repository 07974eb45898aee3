/**
 * `MemoManager`: the in-memory memo list (newest first), the page and filter
 * state, and the persisted copy that every mutation rewrites. Each mutating
 * method is proved against the value-level function of the same operation in
 * module Memos; the read-only queries are functions of the current state.
 */
module Manager {
  import opened JsNumber
  import opened JsString
  import opened Password
  import opened Memos

  class MemoManager {
    var memos: seq<Memo>
    var currentPage: int
    var editingId: Option<int>
    var selectedCategory: Option<string>
    /** The list as last written to local storage under the key 'memos': what a reload reads back. */
    ghost var stored: seq<Memo>

    /** The persisted copy is up to date. */
    ghost predicate Saved()
      reads this
    {
      stored == memos
    }

    /**
     * `new MemoManager()`: `persisted` stands for what local storage holds under
     * 'memos', None when the key is absent or empty.
     */
    constructor (persisted: Option<seq<Memo>>)
      ensures memos == (if persisted.Some? then persisted.value else [])
      ensures currentPage == 1 && editingId == None && selectedCategory == None
      ensures Saved()
    {
      memos := if persisted.Some? then persisted.value else [];
      currentPage := 1;
      editingId := None;
      selectedCategory := None;
      stored := memos;
    }

    /** `saveMemos`: rewrites the whole persisted list. */
    method SaveMemos()
      modifies this`stored
      ensures Saved()
    {
      stored := memos;
    }

    /** `addMemo`: builds the record with the given id and timestamp and puts it first. */
    method AddMemo(id: int, createdAt: string, title: string, url: string, body: string,
                   password: Option<string>) returns (memo: Memo)
      modifies this`memos, this`stored
      ensures memo == NewMemo(id, createdAt, title, url, body, password)
      ensures memos == [memo] + old(memos)
      ensures |memos| == |old(memos)| + 1 && memos[1..] == old(memos)
      ensures Saved()
    {
      var hashed: Option<string> := None;
      if PasswordGiven(password) {
        var h := HashPassword(password.value);
        hashed := Some(h);
      }
      memo := Memo(id, title, url, body, hashed, DefaultCategory, createdAt);
      memos := [memo] + memos;
      SaveMemos();
    }

    /**
     * `updateMemo`: the first memo with the id takes the new title, url and body,
     * and a new password hash only when a password is given; a missing id
     * changes nothing and writes nothing.
     */
    method UpdateMemo(id: int, title: string, url: string, body: string, password: Option<string>)
      requires Saved()
      modifies this`memos, this`stored
      ensures memos == Updated(old(memos), id, title, url, body, password)
      ensures !HasId(old(memos), id) ==> memos == old(memos) && stored == old(stored)
      ensures Saved()
    {
      var found := IndexOf(memos, id);
      if found.Some? {
        var k := found.value;
        var hashed := memos[k].password;
        if PasswordGiven(password) {
          var h := HashPassword(password.value);
          hashed := Some(h);
        }
        memos := memos[k := memos[k].(title := title, url := url, body := body, password := hashed)];
        SaveMemos();
      }
    }

    /** `deleteMemo`: keeps every memo with another id, in order, and writes the list. */
    method DeleteMemo(id: int)
      modifies this`memos, this`stored
      ensures memos == Removed(old(memos), id)
      ensures Saved()
    {
      memos := Removed(memos, id);
      SaveMemos();
    }

    /**
     * `getMemos(page)`: at most ten memos, all from the store and all of the
     * selected category when a filter is set; nothing past the last page.
     */
    function GetMemos(page: int): (r: seq<Memo>)
      reads this
      ensures forall m :: m in r ==> m in memos
      ensures FilterActive(selectedCategory) ==> forall m :: m in r ==> m.category == selectedCategory.value
      ensures page >= 1 ==> |r| <= ItemsPerPage
      ensures page > GetTotalPages() ==> r == []
    {
      PageMatchesFilter(memos, selectedCategory, page);
      assert page >= 1 ==> |Page(memos, selectedCategory, page)| <= ItemsPerPage
                           && (page > GetTotalPages() ==> Page(memos, selectedCategory, page) == []) by {
        if page >= 1 { PageContents(memos, selectedCategory, page); }
      }
      Page(memos, selectedCategory, page)
    }

    /** `getTotalPages`: the least number of ten-memo pages that hold the filtered memos. */
    function GetTotalPages(): (n: nat)
      reads this
      ensures (n - 1) * ItemsPerPage < |Filtered(memos, selectedCategory)| <= n * ItemsPerPage
      ensures n == 0 <==> Filtered(memos, selectedCategory) == []
    {
      TotalPages(memos, selectedCategory)
    }

    /** `getCategories`: every memo's category (missing ones as '기타'), once each, sorted. */
    function GetCategories(): (r: seq<string>)
      reads this
      ensures StrictlySorted(r)
      ensures forall c :: c in r <==> exists i :: 0 <= i < |memos| && DisplayCategory(memos[i]) == c
    {
      CategoriesExact(memos);
      Categories(memos)
    }
  }
}
