/**
 * The gym-roster view-model: an ordered member list, the current selection,
 * and the handlers that apply "Add", "Update" and "Delete" messages to the
 * list and persist it. Persistence, window display and the message bus are
 * outside the model; their effects are recorded as counters and a log.
 */
module ViewModel {
  import opened Collection

  /** A gym member; only its equality is visible to the view-model. */
  type Member(==)

  datatype Option<T> = None | Some(value: T)

  /** A member travelling with a text that says how to apply it. */
  datatype MessageMember = MessageMember(member: Member, message: string)

  /** A plain text notification. */
  datatype NotificationMessage = NotificationMessage(notification: string)

  /**
   * The list after removing the selected member. With nothing selected the
   * collection is asked to remove null, which it does not hold.
   */
  function RemoveSelected(s: seq<Member>, selected: Option<Member>): (r: seq<Member>)
    ensures selected.None? ==> r == s
    ensures selected.Some? && selected.value in s ==> |r| == |s| - 1
    ensures selected.Some? && selected.value !in s ==> r == s
    ensures selected.Some? ==> multiset(r) == multiset(s) - multiset{selected.value}
    ensures selected.Some? && selected.value in s ==>
      r == s[..FirstIndex(s, selected.value)] + s[FirstIndex(s, selected.value) + 1..]
  {
    match selected
    case None => s
    case Some(x) =>
      if x in s then RemoveFirstAt(s, x); RemoveFirst(s, x)
      else RemoveFirst(s, x)
  }

  /**
   * An "Update" on a duplicate-free list gives a duplicate-free list without
   * the selected member's old entry exactly when the incoming member is not
   * one of the entries that remain.
   */
  lemma UpdateDistinct(s: seq<Member>, selected: Option<Member>, m: Member)
    requires Distinct(s)
    ensures Distinct(RemoveSelected(s, selected) + [m]) <==> m !in RemoveSelected(s, selected)
    ensures selected.Some? ==> selected.value !in RemoveSelected(s, selected)
  {
    if selected.Some? {
      RemoveFirstDistinct(s, selected.value);
    }
    AppendDistinct(RemoveSelected(s, selected), m);
  }

  /**
   * An "Update" that overwrites the selected member's entry where it stands,
   * as the handler's documentation describes it. With nothing to overwrite
   * the incoming member is appended, as the handler does.
   */
  function ReplaceSelected(s: seq<Member>, selected: Option<Member>, m: Member): (r: seq<Member>)
    ensures selected.Some? && selected.value in s ==>
      |r| == |s| && r[FirstIndex(s, selected.value)] == m &&
      forall j :: 0 <= j < |s| && j != FirstIndex(s, selected.value) ==> r[j] == s[j]
    ensures selected.None? || selected.value !in s ==> r == s + [m]
  {
    match selected
    case Some(x) =>
      if x in s then s[FirstIndex(s, x) := m] else s + [m]
    case None => s + [m]
  }

  /**
   * The handler's "Update" and the in-place replacement hold the same
   * members; they differ only in where the incoming member stands.
   */
  lemma UpdateSameMembers(s: seq<Member>, selected: Option<Member>, m: Member)
    ensures multiset(RemoveSelected(s, selected) + [m]) == multiset(ReplaceSelected(s, selected, m))
  {
  }

  /**
   * The handler as written moves the edited member to the end: on `[a, b]`
   * with `a` selected, "Update" gives `[b, m]`, whereas replacing `a` where
   * it stands gives `[m, b]`.
   */
  lemma UpdateMovesToEnd(a: Member, b: Member, m: Member)
    requires a != b && m != b
    ensures RemoveSelected([a, b], Some(a)) + [m] == [b, m]
    ensures ReplaceSelected([a, b], Some(a), m) == [m, b]
    ensures RemoveSelected([a, b], Some(a)) + [m] != ReplaceSelected([a, b], Some(a), m)
  {
    // Unfolding the two steps keeps the proof cheap on every solver seed.
    assert FirstIndex([a, b], a) == 0;
    assert RemoveFirst([a, b], a) == [b];
  }

  /** A window that can be asked to close; it counts the requests. */
  class Closable {
    var closeCount: nat

    constructor ()
      ensures closeCount == 0
    {
      closeCount := 0;
    }

    method Close()
      modifies this
      ensures closeCount == old(closeCount) + 1
    {
      closeCount := closeCount + 1;
    }
  }

  class MainViewModel {
    /** The registered members, in display order. */
    var members: seq<Member>
    /** The member selected in the list box; None stands for null. */
    var selected: Option<Member>
    /** How many times the list was handed to the store to be saved. */
    var saveCount: nat
    /** How many add or change windows were shown. */
    var windowsOpened: nat
    /** The members sent on the message bus, oldest first. */
    ghost var sent: seq<Member>

    /** Starts from the list the store loaded, with nothing selected. */
    constructor (stored: seq<Member>)
      ensures members == stored && selected == None
      ensures saveCount == 0 && windowsOpened == 0 && sent == []
    {
      members := stored;
      selected := None;
      saveCount := 0;
      windowsOpened := 0;
      sent := [];
    }

    /** The setter of the selection; nothing else changes. */
    method SetSelectedMember(value: Option<Member>)
      modifies this`selected
      ensures selected == value
      ensures members == old(members) && saveCount == old(saveCount)
    {
      selected := value;
    }

    /** Shows a new add window; the list is not touched. */
    method AddMethod()
      modifies this`windowsOpened
      ensures windowsOpened == old(windowsOpened) + 1
      ensures members == old(members) && saveCount == old(saveCount) && sent == old(sent)
    {
      windowsOpened := windowsOpened + 1;
    }

    /** Closes the given window, if there is one; the list is not touched. */
    method ExitMethod(window: Closable?)
      modifies window
      ensures window != null ==> window.closeCount == old(window.closeCount) + 1
      ensures members == old(members) && selected == old(selected)
      ensures saveCount == old(saveCount) && sent == old(sent)
    {
      if window != null {
        window.Close();
      }
    }

    /**
     * With a selection, shows the change window and sends the selected
     * member to it; without one, does nothing.
     */
    method ChangeMethod()
      modifies this`windowsOpened, this`sent
      ensures selected.None? ==> windowsOpened == old(windowsOpened) && sent == old(sent)
      ensures selected.Some? ==>
        windowsOpened == old(windowsOpened) + 1 && sent == old(sent) + [selected.value]
      ensures members == old(members) && saveCount == old(saveCount)
    {
      if selected.Some? {
        windowsOpened := windowsOpened + 1;
        sent := sent + [selected.value];
      }
    }

    /**
     * "Update" removes the selected member's first entry and appends the
     * incoming member at the end, so an edited member moves to the end of
     * the list; "Add" appends it; each saves once. Any other text is
     * ignored. The selection is never changed.
     */
    method ReceiveMember(m: MessageMember)
      modifies this`members, this`saveCount
      ensures m.message == "Update" ==>
        members == RemoveSelected(old(members), selected) + [m.member] &&
        saveCount == old(saveCount) + 1
      ensures m.message == "Update" && selected.Some? && selected.value in old(members) ==>
        |members| == |old(members)|
      ensures m.message == "Update" && (selected.None? || selected.value !in old(members)) ==>
        members == old(members) + [m.member]
      ensures m.message == "Add" ==>
        members == old(members) + [m.member] && saveCount == old(saveCount) + 1
      ensures m.message != "Update" && m.message != "Add" ==>
        members == old(members) && saveCount == old(saveCount)
      ensures selected == old(selected)
    {
      if m.message == "Update" {
        members := RemoveSelected(members, selected);
        members := members + [m.member];
        saveCount := saveCount + 1;
      } else if m.message == "Add" {
        members := members + [m.member];
        saveCount := saveCount + 1;
      }
    }

    /**
     * "Delete" removes the selected member's first entry and saves, even
     * when there was nothing to remove; any other text is ignored.
     */
    method ReceiveMessage(msg: NotificationMessage)
      modifies this`members, this`saveCount
      ensures msg.notification == "Delete" ==>
        members == RemoveSelected(old(members), selected) &&
        saveCount == old(saveCount) + 1
      ensures msg.notification != "Delete" ==>
        members == old(members) && saveCount == old(saveCount)
      ensures selected == old(selected)
    {
      if msg.notification == "Delete" {
        members := RemoveSelected(members, selected);
        saveCount := saveCount + 1;
      }
    }
  }

  // Usage scenarios, as a caller concludes them from the contracts above
  // alone.

  /** Adding to an empty list, then replacing the selected member. */
  method AddThenUpdateScenario(m1: Member, m1Edited: Member)
  {
    var vm := new MainViewModel([]);
    vm.ReceiveMember(MessageMember(m1, "Add"));
    assert vm.members == [m1] && vm.saveCount == 1;
    vm.SetSelectedMember(Some(m1));
    vm.ReceiveMember(MessageMember(m1Edited, "Update"));
    assert vm.members == [m1Edited] && vm.saveCount == 2;
    assert vm.selected == Some(m1);
  }

  /** Deleting the second of two members (equal or not to the first). */
  method DeleteScenario(m1: Member, m2: Member)
  {
    var vm := new MainViewModel([m1, m2]);
    vm.SetSelectedMember(Some(m2));
    vm.ReceiveMessage(NotificationMessage("Delete"));
    assert vm.members == [m1] && vm.saveCount == 1;
  }

  /** Deleting with nothing selected keeps the list but still saves. */
  method DeleteWithoutSelectionScenario(m1: Member, m2: Member)
  {
    var vm := new MainViewModel([m1]);
    vm.ReceiveMessage(NotificationMessage("Delete"));
    assert vm.members == [m1] && vm.saveCount == 1;
    vm.ReceiveMember(MessageMember(m2, "Insert"));
    assert vm.members == [m1] && vm.saveCount == 1;
  }

  /** Closing and changing touch neither the list nor the store. */
  method CommandScenario(m1: Member)
  {
    var vm := new MainViewModel([m1]);
    vm.ExitMethod(null);
    var w := new Closable();
    vm.ExitMethod(w);
    assert w.closeCount == 1 && vm.members == [m1];
    vm.ChangeMethod();
    assert vm.sent == [] && vm.windowsOpened == 0;
    vm.SetSelectedMember(Some(m1));
    vm.ChangeMethod();
    assert vm.sent == [m1] && vm.windowsOpened == 1 && vm.saveCount == 0;
  }
}
