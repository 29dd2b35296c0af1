# Window control state of the Wesnoth GUI (gui2::window)

This project models, in Dafny, the per-window control state of `gui2::window`,
the top-level container of the Battle for Wesnoth GUI, as declared in
`src/gui/widgets/window.hpp`:

- the lifecycle status (NEW, SHOWING, REQUEST_CLOSE, CLOSED), `close()` and the
  return value (`set_retval` / `get_retval`);
- the exit hook installed with `set_exit_hook` under the `always` or `ok_only` mode;
- click dismissal: the `click_dismiss_` flag, `does_click_dismiss()` and the
  `click_dismiss` handler with its bitmask of mouse buttons held down on entry;
- layout invalidation: `need_layout_`, `invalidate_layout()` and the
  non-reentrant `invalidate_layout_blocker`;
- the linked size groups: the `linked_size` record, the string-keyed table of
  groups and `init_linked_size_group`, `has_linked_size_group`,
  `add_linked_widget`, `remove_linked_widget` and `get_linked_size`;
- the enter and escape flags.

The window is a class (`GuiWindow.Window`) whose methods change the fields
their `modifies` clause names and no others. So `Close` modifies only
``this`status``, which states that close() changes no other field. The pure parts are
specification functions in their own modules, and lemmas are proved about them:

- `LinkedSizes`: the group table, its invariant (`Valid`: every group links an
  axis, no widget is listed twice, a widget is in at most one group) and the
  table after each operation.
- `ClickDismissal`: one click-dismiss step on the button mask.
- `ExitHooks`: the combined exit hook.
- `Retval`: the return codes.

Each window method is proved to produce exactly the state the matching
function describes. The method also keeps the window's invariant.

Outside pieces become inputs:

- Widgets are opaque `nat` handles.
- `disable_click_dismiss()` (asked of the widget tree) is a boolean parameter.
- The caller's exit-hook predicate is represented by the boolean it answers.
- The mouse button state read from the host system on entry is a constructor
  parameter.

Only the header is available, not the `.cpp` bodies. Where the header gives
only a declaration and a doc comment, the model follows that comment. Where
the comment does not decide a behaviour, the model makes a choice, marked as
such below:

- `init_linked_size_group` returns false and changes nothing when neither axis
  is fixed, as its comment demands. Choice: it does the same when the id already
  names a group, so that a group's members are never silently dropped.
- `add_linked_widget` and `remove_linked_widget` require the group to exist,
  as their comments say. `add_linked_widget` also requires that the widget is in
  no other group, as its comment says. Choice: adding a widget that is already
  a member of the same group changes nothing, so a group never lists a widget
  twice. `remove_linked_widget` finds the widget by a linear search
  (`LinkedSizes.Find`) and erases that occurrence; a non-member changes
  nothing, as its comment says.
- `invalidate_layout()` sets `need_layout_` only when no blocker is active, as
  the blocker's comment says. The blocker's constructor requires that no other
  blocker is active on the window, because the class "can't be used
  recursively". Its destructor (`Release`) clears the flag again and can end a
  blocker only once.
- `click_dismiss(mask)`: the comments say that a button held on entry is
  forgotten on its release instead of dismissing, that the next release
  dismisses, and that the keyboard passes mask 0. Choices beyond that:
  - it returns "handled" exactly when `does_click_dismiss()` is true, and does
    nothing otherwise;
  - a dismissal is `set_retval(OK)`, which sets the return value to OK and
    requests closing.
- The return codes live in `gui/widgets/retval.hpp`, which is not part of this
  model. `NONE` is 0, the default the header names. Choice: `OK` is -1. No
  property depends on the value of `OK` beyond its differing from `NONE`.

`close()` sets REQUEST_CLOSE whatever the current status, CLOSED included, and
nothing in the header makes the status only move forward
(NEW→SHOWING→REQUEST_CLOSE→CLOSED). The model follows the code:
`GuiWindow.Window.Close` has no precondition on the status.

The query `does_click_dismiss()` is the function `GuiWindow.Window.DoesClickDismiss`,
whose body is the header's expression; what it means for callers is stated on
`SetClickDismiss` and `ClickDismiss`.

## Model

| member | source | states |
|---|---|---|
| `GuiWindow.Window.constructor` | src/gui/widgets/window.hpp:68 | a new window has status NEW and return value 0, needs a layout, has no blocker, no groups and no exit hook, and remembers the buttons held on entry |
| `GuiWindow.Window.Close` | src/gui/widgets/window.hpp:212-221 | close() sets the status to REQUEST_CLOSE (not CLOSED), from any status; its frame is the status field alone, so nothing else changes |
| `GuiWindow.Window.SetRetval` | src/gui/widgets/window.hpp:389-405 | after set_retval(v, c), get_retval() is v; the status becomes REQUEST_CLOSE when c is true and is unchanged when c is false; no other field changes |
| `GuiWindow.Window.SetExitHook` | src/gui/widgets/window.hpp:437-462 | set_exit_hook records the caller's hook under the given mode and touches nothing else |
| `GuiWindow.Window.ExitHookAllowsClose` | src/gui/widgets/window.hpp:447-462 | the installed hook, evaluated against the window's return value at the time of the call: under ok_only it allows closing whenever the return value is not OK, and answers the caller's predicate when it is OK; under always it answers the caller's predicate |
| `ExitHooks.Combine` | src/gui/widgets/window.hpp:447-462 | the combined hook: under always it equals the caller's answer; under ok_only it is true when the return value is not OK and equals the caller's answer when it is OK |
| `ExitHooks.OkOnlyIgnoresHookUnlessOk` | src/gui/widgets/window.hpp:455-456 | under ok_only with a return value other than OK the caller's predicate is not consulted: the result is the same whatever it would answer |
| `ExitHooks.VetoComesFromHook` | src/gui/widgets/window.hpp:442-456 | a veto (false) happens only when the caller's predicate answers false, and under ok_only only when the return value is OK |
| `ExitHooks.OkOnlyNoStricterThanAlways` | src/gui/widgets/window.hpp:450-456 | whenever the always mode would allow closing, ok_only allows it too |
| `GuiWindow.Window.SetClickDismiss` | src/gui/widgets/window.hpp:412-415 | set_click_dismiss sets click_dismiss_ and changes no other field; afterwards does_click_dismiss() is false for every answer of the widget tree when the flag was cleared, and when it was set it is true unless the widget tree disables dismissal |
| `GuiWindow.Window.ClickDismiss` | src/gui/widgets/window.hpp:616-644 | the handler reports "handled" exactly when does_click_dismiss() holds, and then it does one of two things: a release of a button still remembered as down clears that button's bits and leaves the return value and status alone; any other release sets the return value to OK and requests closing; when click_dismiss_ is clear or the widget tree disables dismissal, it returns false and changes nothing |
| `ClickDismissal.Step` | src/gui/widgets/window.hpp:616-644 | one click-dismiss event: handled exactly when dismissal is enabled, dismissed only if handled, and the remembered button set only ever loses bits |
| `ClickDismissal.OtherButtonsKept` | src/gui/widgets/window.hpp:637-640 | a release only forgets the buttons in its own mask; the other remembered buttons stay |
| `ClickDismissal.DisabledIgnores` | src/gui/widgets/window.hpp:623-626 | with dismissal disabled the event is not handled and the button state is kept |
| `ClickDismissal.KeyboardDismisses` | src/gui/widgets/window.hpp:619-621 | the keyboard's mask 0 never matches a remembered button, so it dismisses and keeps the button state |
| `ClickDismissal.HeldReleaseSwallowed` | src/gui/widgets/window.hpp:637-640 | releasing a button that was down on entry does not dismiss, and clears that button's bits |
| `ClickDismissal.NextReleaseDismisses` | src/gui/widgets/window.hpp:637-641 | after the first (swallowed) release of a button held on entry, the next release of the same button dismisses |
| `ClickDismissal.FreshReleaseDismisses` | src/gui/widgets/window.hpp:637-641 | a release of a button that was not down on entry dismisses at once |
| `GuiWindow.Window.InvalidateLayout` | src/gui/widgets/window.hpp:243-256 | invalidate_layout() sets need_layout_ when no blocker is active and is a no-op while one is; it touches no other field |
| `GuiWindow.InvalidateLayoutBlocker.constructor` | src/gui/widgets/window.hpp:223-241 | a blocker may only be created when none is active on the window (it is not reentrant), and afterwards invalidate_layout_blocked() is true |
| `GuiWindow.InvalidateLayoutBlocker.Release` | src/gui/widgets/window.hpp:237-247 | the end of the blocker's scope makes invalidate_layout_blocked() false again; a blocker ends only once, as a destructor runs once |
| `GuiWindow.Window.SetEnterDisabled` | src/gui/widgets/window.hpp:313-324 | set_enter_disabled sets enter_disabled_ and changes no other field |
| `GuiWindow.Window.SetEscapeDisabled` | src/gui/widgets/window.hpp:326-337 | set_escape_disabled sets escape_disabled_ and changes no other field |
| `LinkedSizes.NewLinkedSize` | src/gui/widgets/window.hpp:586-601 | a new linked_size record has no members and stores 0 on a linked axis and -1 on one that is not linked |
| `GuiWindow.Window.InitLinkedSizeGroup` | src/gui/widgets/window.hpp:339-352 | init_linked_size_group succeeds exactly when an axis is fixed and the id is new; the table becomes the specified one and stays valid |
| `GuiWindow.Window.HasLinkedSizeGroup` | src/gui/widgets/window.hpp:354-361 | in a valid window, has_linked_size_group(id) holds exactly when get_linked_size(id) is not (-1, -1) |
| `GuiWindow.Window.GetLinkedSize` | src/gui/widgets/window.hpp:428-435 | get_linked_size returns the stored (width, height) of an existing group and (-1, -1) for an unknown id; in a valid window an existing group reports a real size on at least one axis |
| `LinkedSizes.InitGroupResult` | src/gui/widgets/window.hpp:339-361 | after a successful init, has_linked_size_group(id) holds, the group is empty and get_linked_size reports 0 or -1 per axis; a failed init changes nothing; other groups are untouched |
| `LinkedSizes.InitPreservesValid` | src/gui/widgets/window.hpp:339-352 | initialising a group keeps every group linking an axis and every widget in at most one group |
| `LinkedSizes.UnknownGroupSize` | src/gui/widgets/window.hpp:428-435 | in a valid table, get_linked_size answers (-1, -1) exactly for an id that names no group |
| `GuiWindow.Window.AddLinkedWidget` | src/gui/widgets/window.hpp:363-373 | add_linked_widget requires an existing group and a widget in no other group, produces the specified table and keeps the invariant |
| `LinkedSizes.AddWidgetResult` | src/gui/widgets/window.hpp:363-373 | after adding, the widget is a member of the group, listed exactly once when the group had no duplicates; the other members, the group's sizes and all other groups are unchanged |
| `LinkedSizes.AddPreservesValid` | src/gui/widgets/window.hpp:363-373 | adding a widget that is in no other group keeps "a widget is a member of at most one group" and "no widget is listed twice" |
| `GuiWindow.Window.RemoveLinkedWidget` | src/gui/widgets/window.hpp:375-385 | remove_linked_widget requires an existing group, finds and erases the widget, produces the specified table and keeps the invariant |
| `LinkedSizes.RemoveNonMember` | src/gui/widgets/window.hpp:378-380 | removing a widget that is not a member leaves the table unchanged |
| `LinkedSizes.RemoveWidgetResult` | src/gui/widgets/window.hpp:375-385 | after removal the widget is no member of the group; every other member stays, and the sizes and other groups are unchanged |
| `LinkedSizes.RemovePreservesValid` | src/gui/widgets/window.hpp:375-385 | removing a widget keeps the table valid |
| `LinkedSizes.AddThenRemove` | src/gui/widgets/window.hpp:363-385 | adding a widget that is not yet a member and then removing it restores the table exactly |
| `LinkedSizes.Find` | src/gui/widgets/window.hpp:378-380 | the membership search: the index of the first occurrence of the widget, or the length of the list when it is no member |
| `LinkedSizes.Erase` | src/gui/widgets/window.hpp:375-385 | erasing a widget removes exactly one occurrence of it (the multiset of members loses that widget once) |

## Left out

- `show`, `show_tooltip`, `show_non_modal`, `draw` and `hide` are not modelled. They are event loops driven by SDL timers and the host event queue. So the only status changes modelled are those of `close` and `set_retval`, and the exit hook is modelled up to the answer it gives, not the loop that consults it. `mode()` reads `show_mode_`, which only those functions set, so the model keeps the field, starting at `NoMode`, with no setter.
- `render`, `expose`, `update_render_textures`, `queue_rerender`, `defer_region`, `consecutive_changed_frames_` and `redraw_windows_on_top` are not modelled. They work on SDL textures, or only their declarations exist, so any region algebra or counter rule would be invented.
- `layout()` and `layout_linked_widgets()` are not modelled, nor the placement formulas (`x_`, `y_`, `w_`, `h_`, `maximum_*`, `reevaluate_best_size_`, `variables_`, `set_variable`). Their bodies are not available and they rely on the external formula evaluator. So the model never clears `need_layout_` and never changes a group's shared width and height after `init_linked_size_group`.
- The signal handlers, `find`, `find_at`, the keyboard chain and tab order, `mouse_capture`, `keyboard_capture`, `window_instance`, `get_retval_by_id`, `set_owner`/`dialog()`, the debug graph output and `window_definition` are not modelled. They belong to the event distributor, the widget tree, a process-wide registry or configuration parsing, and none of their bodies are available.
- `GuiWindow.Window.constructor`: only status NEW and the return value 0 come from the header. The other initial values (`need_layout_` set, no blocker, flags cleared, no exit hook) are the model's choice, because the constructor body is not available.
- `GuiWindow.Window.ExitHookAllowsClose`: requires a hook to have been installed, because the window's default hook is set in the constructor body, which is not available.
- Widget pointers are opaque handles, so the model does not capture a widget being destroyed while it is still listed in a group.
