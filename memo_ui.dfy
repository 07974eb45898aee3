/**
 * The state side of `MemoUI`: the edit/create modal (which memo is being
 * edited, whether the lock toggle is on, whether the modal is shown), the
 * checks a submit must pass, the create-or-update branch it then takes, the
 * confirmed delete and the unlock decision. Form fields, the `prompt` and
 * `confirm` answers and the classifier's reply arrive as parameters; drawing
 * the page is not modelled.
 */
module Ui {
  import opened JsNumber
  import opened JsString
  import opened Password
  import opened Memos
  import opened Manager

  /** How a submit ends: one of the three refusals, or accepted with the code to store (if any). */
  datatype SubmitCheck =
    | MissingField
    | PromptCancelled
    | InvalidCode
    | Accepted(password: Option<string>)

  /**
   * The checks of `handleFormSubmit` on the trimmed title and body: both must be
   * non-empty; with the lock toggle on, the prompt must not be cancelled and
   * its answer must be four digits (`length !== 4 || !/^\d{4}$/`).
   */
  function CheckSubmit(title: string, body: string, passwordProtected: bool,
                       promptAnswer: Option<string>): (r: SubmitCheck)
    ensures r.Accepted? <==>
              title != "" && body != ""
              && (passwordProtected ==> promptAnswer.Some? && IsFourDigitCode(promptAnswer.value))
    ensures r == MissingField <==> title == "" || body == ""
    ensures r == PromptCancelled <==> title != "" && body != "" && passwordProtected && promptAnswer.None?
    ensures r.Accepted? ==> r.password == (if passwordProtected then promptAnswer else None)
    ensures r.Accepted? && r.password.Some? ==> PasswordGiven(r.password)
  {
    if title == "" || body == "" then MissingField
    else if !passwordProtected then Accepted(None)
    else if promptAnswer.None? then PromptCancelled
    else if |promptAnswer.value| != 4 || !IsFourDigitCode(promptAnswer.value) then InvalidCode
    else Accepted(promptAnswer)
  }

  /** A field left blank or filled with white space only is refused. */
  lemma BlankFieldRefused(titleInput: string, bodyInput: string, passwordProtected: bool,
                          promptAnswer: Option<string>)
    ensures CheckSubmit(Trim(titleInput), Trim(bodyInput), passwordProtected, promptAnswer) == MissingField
            <==> AllWhiteSpace(titleInput) || AllWhiteSpace(bodyInput)
  {
    TrimEmpty(titleInput);
    TrimEmpty(bodyInput);
  }

  /** `if (this.manager.editingId)`: an id of 0 counts as "not editing". */
  predicate Editing(editingId: Option<int>) {
    editingId.Some? && editingId.value != 0
  }

  /**
   * `unlockMemo`'s decision for a locked memo: reveal the body when the prompt
   * was answered and the answer verifies against the stored hash.
   */
  function Unlocks(memo: Memo, promptAnswer: Option<string>): bool
    requires memo.password.Some?
  {
    promptAnswer.Some? && VerifyPassword(memo.password.value, promptAnswer.value)
  }

  /** A memo locked through a submit opens for its own code and for no other four-digit answer. */
  lemma LockedMemoOpensForItsCode(memo: Memo, code: string, answer: string)
    requires IsFourDigitCode(code) && IsFourDigitCode(answer)
    requires memo.password == Some(HashString(code))
    ensures Unlocks(memo, Some(answer)) <==> answer == code
    ensures !Unlocks(memo, None)
  {
    FourDigitLockExact(code, answer);
  }

  class MemoUI {
    const manager: MemoManager
    var passwordProtected: bool
    /** Whether the modal carries the 'show' class. */
    var modalOpen: bool

    constructor (manager: MemoManager)
      ensures this.manager == manager
      ensures !passwordProtected && !modalOpen
    {
      this.manager := manager;
      passwordProtected := false;
      modalOpen := false;
    }

    /** `togglePasswordProtection`. */
    method TogglePasswordProtection()
      modifies this`passwordProtected
      ensures passwordProtected == !old(passwordProtected)
    {
      passwordProtected := !passwordProtected;
    }

    /** `openAddModal`: a blank form for a new memo, lock off. */
    method OpenAddModal()
      modifies this`passwordProtected, this`modalOpen, manager`editingId
      ensures manager.editingId == None && !passwordProtected && modalOpen
    {
      manager.editingId := None;
      passwordProtected := false;
      modalOpen := true;
    }

    /** `openEditModal(id)`: for an existing memo, edit it with the lock on iff it has a password; else nothing. */
    method OpenEditModal(id: int)
      modifies this`passwordProtected, this`modalOpen, manager`editingId
      ensures !HasId(manager.memos, id) ==>
                manager.editingId == old(manager.editingId)
                && passwordProtected == old(passwordProtected) && modalOpen == old(modalOpen)
      ensures HasId(manager.memos, id) ==>
                var memo := manager.memos[IndexOf(manager.memos, id).value];
                manager.editingId == Some(id) && modalOpen
                && passwordProtected == PasswordGiven(memo.password)
    {
      var found := IndexOf(manager.memos, id);
      if found.None? {
        return;
      }
      var memo := manager.memos[found.value];
      manager.editingId := Some(id);
      passwordProtected := PasswordGiven(memo.password);
      modalOpen := true;
    }

    /** `closeModal`. */
    method CloseModal()
      modifies this`modalOpen, manager`editingId
      ensures !modalOpen && manager.editingId == None
    {
      modalOpen := false;
      manager.editingId := None;
    }

    /**
     * `handleFormSubmit`: the raw field values, the answer to the code prompt
     * (None when cancelled; not asked unless the lock is on), the classifier's
     * reply, and the clock's id and timestamp for a new memo. A refused submit
     * changes nothing and leaves the modal open. An accepted one updates the
     * memo being edited, or inserts a new memo first, gives it the classified
     * category, closes the modal and returns to page 1.
     */
    method HandleFormSubmit(titleInput: string, urlInput: string, bodyInput: string,
                            promptAnswer: Option<string>, reply: ClassifierReply,
                            now: int, createdAt: string) returns (outcome: SubmitCheck)
      requires manager.Saved()
      modifies this`modalOpen, manager`memos, manager`stored, manager`editingId, manager`currentPage
      ensures outcome == CheckSubmit(Trim(titleInput), Trim(bodyInput), old(passwordProtected), promptAnswer)
      ensures !outcome.Accepted? ==>
                manager.memos == old(manager.memos) && manager.stored == old(manager.stored)
                && manager.editingId == old(manager.editingId)
                && manager.currentPage == old(manager.currentPage)
                && manager.selectedCategory == old(manager.selectedCategory)
                && modalOpen == old(modalOpen)
      ensures outcome.Accepted? ==>
                var title, url, body := Trim(titleInput), Trim(urlInput), Trim(bodyInput);
                var category := ClassifiedCategory(reply);
                && (Editing(old(manager.editingId)) ==>
                      var id := old(manager.editingId).value;
                      manager.memos == Recategorized(Updated(old(manager.memos), id, title, url, body,
                                                             outcome.password), id, category))
                && (!Editing(old(manager.editingId)) ==>
                      manager.memos == [NewMemo(now, createdAt, title, url, body, outcome.password)
                                          .(category := category)] + old(manager.memos))
                && manager.editingId == None && manager.currentPage == 1
                && manager.selectedCategory == old(manager.selectedCategory)
                && !modalOpen
      ensures manager.Saved()
    {
      var title, url, body := Trim(titleInput), Trim(urlInput), Trim(bodyInput);
      outcome := CheckSubmit(title, body, passwordProtected, promptAnswer);
      if !outcome.Accepted? {
        return;
      }
      var category := ClassifiedCategory(reply);
      if Editing(manager.editingId) {
        SaveEdited(manager.editingId.value, title, url, body, outcome.password, category);
      } else {
        SaveNew(now, createdAt, title, url, body, outcome.password, category);
      }
      CloseModal();
      manager.currentPage := 1;
    }

    /** The edit branch of `handleFormSubmit`: `updateMemo`, then the classified category on the same memo. */
    method SaveEdited(id: int, title: string, url: string, body: string, password: Option<string>,
                      category: string)
      requires manager.Saved()
      modifies manager`memos, manager`stored
      ensures manager.memos == Recategorized(Updated(old(manager.memos), id, title, url, body, password),
                                             id, category)
      ensures manager.Saved()
    {
      ghost var before := manager.memos;
      manager.UpdateMemo(id, title, url, body, password);
      ghost var updated := manager.memos;
      UpdatedKeepsIds(before, id, title, url, body, password, id);
      var found := IndexOf(manager.memos, id);
      if found.Some? {
        manager.memos := manager.memos[found.value := manager.memos[found.value].(category := category)];
        manager.SaveMemos();
      }
    }

    /** The create branch of `handleFormSubmit`: `addMemo`, then the classified category on the new memo. */
    method SaveNew(now: int, createdAt: string, title: string, url: string, body: string,
                   password: Option<string>, category: string)
      modifies manager`memos, manager`stored
      ensures manager.memos == [NewMemo(now, createdAt, title, url, body, password).(category := category)]
                               + old(manager.memos)
      ensures manager.Saved()
    {
      var memo := manager.AddMemo(now, createdAt, title, url, body, password);
      manager.memos := manager.memos[0 := memo.(category := category)];
      manager.SaveMemos();
    }

    /** `handleDelete`: deletes only when the confirmation was accepted. */
    method HandleDelete(id: int, confirmed: bool)
      requires manager.Saved()
      modifies manager`memos, manager`stored
      ensures manager.memos == if confirmed then Removed(old(manager.memos), id) else old(manager.memos)
      ensures !confirmed ==> manager.stored == old(manager.stored)
      ensures manager.Saved()
    {
      if confirmed {
        manager.DeleteMemo(id);
      }
    }
  }
}
