# GymMembers view-model in Dafny

This project models the main view-model of the GymMembers desktop application,
`MainViewModel` (GymMembers/ViewModel/MainViewModel.cs). The view-model owns the
ordered list of registered gym members and the member currently selected in the
list box. It opens the add and change windows. It applies incoming bus messages
to the list:

- a member message with the text `"Update"` removes the selected member and appends the incoming one;
- a member message with the text `"Add"` appends the incoming member;
- a notification with the text `"Delete"` removes the selected member.

After each of these three changes the list is saved.

Files:

- `collection.dfy`, module `Collection`: `RemoveFirst` is the behaviour of
  `Collection<T>.Remove`. It deletes the first element equal to the argument and
  does nothing when there is none. `FirstIndex` is an independent description of
  which element that is. Lemmas say what removal does to the order of the other
  elements and to a list without duplicates.
- `main_view_model.dfy`, module `ViewModel`: `Member` is an abstract type with
  equality, because the member's fields and its `Equals` are not part of this model.
  The message types are datatypes. `MainViewModel` is a class whose methods change
  its fields in place. `Closable` stands for the `IClosable` window interface and
  counts `Close` calls.

What the model records in place of the effects it cannot see:

- a save is counted in `saveCount`;
- a window shown by `AddMethod` or `ChangeMethod` is counted in `windowsOpened`;
- a member sent on the bus is appended to the ghost log `sent`;
- a null selection is `None`.

The scenario methods at the end of `main_view_model.dfy` show what a caller can
conclude from the contracts alone.

Four consequences of the code are worth stating outright:

- "Delete" with nothing selected keeps the list but still saves. The save at
  MainViewModel.cs:147 is unconditional inside the "Delete" branch
  (`DeleteWithoutSelectionScenario`).
- "Update" with nothing selected, or with a selected member that is not in the
  list, removes nothing and makes the list one longer: it acts as "Add"
  (`ReceiveMember`).
- "Update" with a selected member in the list moves the edited member to the
  end of the list. The handler's documentation (MainViewModel.cs:120-121) says
  "Update" replaces at the specified index, but lines 126-127 remove the old
  entry and append the new one (`UpdateMovesToEnd`; see "## Findings").
- The code does not keep the list duplicate-free. `UpdateDistinct` states
  exactly when an "Update" keeps it so, and `AppendDistinct` does the same for "Add".

## Model

| member | source | states |
|---|---|---|
| `Collection.RemoveFirst` | GymMembers/ViewModel/MainViewModel.cs:126 | Removing an absent member leaves the list unchanged. Removing a present one shortens the list by one. The result holds the same members with exactly one copy of the removed member fewer (multiset difference). |
| `Collection.FirstIndex` | GymMembers/ViewModel/MainViewModel.cs:146 | The index that `Remove` deletes: it holds the member, and no earlier position does. |
| `Collection.RemoveFirstAt` | GymMembers/ViewModel/MainViewModel.cs:126 | Removal deletes exactly the first occurrence. The result is the list before that index followed by the list after it, so the other entries keep their relative order. |
| `Collection.RemoveFirstDistinct` | GymMembers/ViewModel/MainViewModel.cs:144-148 | On a duplicate-free list, removal leaves no copy of the removed member, and the list stays duplicate-free. |
| `Collection.AppendDistinct` | GymMembers/ViewModel/MainViewModel.cs:130-134 | Appending to a duplicate-free list keeps it duplicate-free if and only if the appended member is not already in it. |
| `ViewModel.RemoveSelected` | GymMembers/ViewModel/MainViewModel.cs:126 | With nothing selected the list is unchanged (the collection holds no null). With a selection, exactly one copy of the selected member is removed (multiset difference). When it is present, the result is the list with its first occurrence cut out, the other entries keeping their order, so the list is one shorter. When it is absent, the list is unchanged. |
| `ViewModel.ReplaceSelected` | GymMembers/ViewModel/MainViewModel.cs:120-121 | The documented "Update": when the selected member is present, the list keeps its length, its first occurrence is overwritten by the incoming member in place, and every other position is unchanged. Otherwise the incoming member is appended. |
| `ViewModel.UpdateSameMembers` | GymMembers/ViewModel/MainViewModel.cs:124-129 | The code's "Update" and the documented in-place replacement always hold the same members with the same multiplicities; they can differ only in order. |
| `ViewModel.UpdateMovesToEnd` | GymMembers/ViewModel/MainViewModel.cs:126-127 | On `[a, b]` with `a` selected (`a != b`, `m != b`), the code's "Update" gives `[b, m]` while the documented replacement gives `[m, b]`, so the two differ. |
| `ViewModel.UpdateDistinct` | GymMembers/ViewModel/MainViewModel.cs:124-129 | On a duplicate-free list, the selected member's old entry is gone after "Update". The result is duplicate-free if and only if the incoming member is not among the remaining entries. |
| `ViewModel.MainViewModel.constructor` | GymMembers/ViewModel/MainViewModel.cs:54-64 | Starts from the list the store loaded. Nothing is selected, and nothing has been saved, shown or sent yet. |
| `ViewModel.MainViewModel.SetSelectedMember` | GymMembers/ViewModel/MainViewModel.cs:75-79 | The selection becomes the given value. The list and the save count are unchanged. |
| `ViewModel.MainViewModel.AddMethod` | GymMembers/ViewModel/MainViewModel.cs:85-89 | Shows one window. The list, the saves and the sent log are unchanged. |
| `ViewModel.MainViewModel.ExitMethod` | GymMembers/ViewModel/MainViewModel.cs:95-102 | A non-null window is closed exactly once. A null window means nothing is modified. The list, the selection, the saves and the sent log are unchanged either way. |
| `ViewModel.MainViewModel.ChangeMethod` | GymMembers/ViewModel/MainViewModel.cs:107-115 | Without a selection nothing is shown or sent. With one, exactly one window is shown and exactly the selected member is sent. The list and the saves are unchanged. |
| `ViewModel.MainViewModel.ReceiveMember` | GymMembers/ViewModel/MainViewModel.cs:122-135 | "Update" gives the old list with the selected member removed (first occurrence), plus the incoming member at the end, and saves once. The length is kept when the selected member was present. When it was absent or nothing was selected, the result is the same as "Add". "Add" appends the member at the end, keeps the earlier entries and saves once. Any other text changes neither the list nor the save count. The selection is never changed. |
| `ViewModel.MainViewModel.ReceiveMessage` | GymMembers/ViewModel/MainViewModel.cs:142-149 | "Delete" removes the first occurrence of the selected member and saves once, even when nothing was removed. Any other text changes neither the list nor the save count. The selection is never changed, so it still names the removed member. |
| `ViewModel.Closable.Close` | GymMembers/ViewModel/IClosable.cs:11 | Each call increments the window's close count by one. |

## Findings

The handler model `ReceiveMember` follows the code as written. `ReplaceSelected` is the documented behaviour, given beside it for comparison.

| source | as written | input that shows it | evidently intended | confidence | as-written member | corrected member |
|---|---|---|---|---|---|---|
| GymMembers/ViewModel/MainViewModel.cs:120-127 | "Update" removes the selected member's entry and appends the edited member at the end of the list | list `[a, b]`, `a` selected, "Update" with `m` (`a != b`, `m != b`): result `[b, m]` | the documentation says "Update" replaces at the specified index: result `[m, b]`, each other entry keeping its position | not executed; medium (the display order may not matter to the authors) | `ViewModel.UpdateMovesToEnd` | `ViewModel.ReplaceSelected` |

## Left out

- Persistence: `MemberDB` (`GetMemberships`, `SaveMemberships`) is not part of this model. The constructor takes the loaded list as a parameter. A save is only counted; the model does not claim which list is written. The store is created with the empty collection, which the constructor then replaces (MainViewModel.cs:56-58). Failures of the store are not modelled.
- Message bus: the GalaSoft MvvmLight `Messenger` is not part of this model. Handler registration (MainViewModel.cs:62-63) is left out, and the handlers are methods called directly. `Send` is recorded in the ghost log `sent`.
- Windows: `AddWindow` and `ChangeWindow` creation and `Show` are WPF display. Each is only counted in `windowsOpened`.
- `ViewModel.Closable.Close`: what a real window does when closed is not modelled, only that `Close` was called.
- Change notification and commands: `RaisePropertyChanged`, the observable collection's change events, and the `ICommand`/`RelayCommand` wiring are UI binding and are left out. So is the `MemberList` getter, which is the field `members` itself.
- `Member` and `MessageMember`: their fields and `Member.Equals` are not part of this model. `Member` is an abstract type with equality. A `MessageMember` is a member paired with its text, and the member is what is appended.
- Null values: a null message object would make the handlers throw when they read its text (MainViewModel.cs:124, 144). The model's message values are never null, so that exception is left out. The model's list holds no null entries. This is why removing a null selection is a no-op. A null message text is unequal to "Update", "Add" and "Delete", so it is ignored like any other text; the model's strings are therefore never null.
