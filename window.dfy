/**
 * The per-window control state of a top-level GUI window: its lifecycle
 * status and return value, the exit hook, click dismissal, layout
 * invalidation with its blocker, the linked size groups and the enter and
 * escape flags. Each method changes only the fields its `modifies` names.
 */
module GuiWindow {
  import Retval
  import ExitHooks
  import ClickDismissal
  import LinkedSizes

  /** The lifecycle of a window. */
  datatype Status =
    | New           // not yet shown
    | Showing       // being shown
    | RequestClose  // closing was requested, the request is still to be evaluated
    | Closed        // closed

  /** How the window is shown; only the show functions, which are not modelled, change it. */
  datatype ShowMode = NoMode | Modal | Modeless | Tooltip

  class Window {
    var status: Status
    var showMode: ShowMode
    var retval: int
    var needLayout: bool
    var invalidateLayoutBlocked: bool
    var clickDismiss: bool
    var enterDisabled: bool
    var escapeDisabled: bool
    var exitHook: ExitHooks.ExitHook
    var linkedSize: LinkedSizes.Table
    /** The mouse buttons (SDL button mask) still remembered as down when the window was entered. */
    var mouseButtonState: bv32

    /** The window invariant: the linked size groups are well formed and disjoint. */
    ghost predicate Valid()
      reads this`linkedSize
    {
      LinkedSizes.Valid(linkedSize)
    }

    /**
     * A new window. `buttonsDownOnEntry` is the mouse button state read from
     * the host system when the window is entered.
     */
    constructor (buttonsDownOnEntry: bv32)
      ensures Valid()
      ensures status == New && showMode == NoMode && retval == Retval.NONE
      ensures needLayout && !invalidateLayoutBlocked
      ensures !clickDismiss && !enterDisabled && !escapeDisabled
      ensures exitHook == ExitHooks.Unset
      ensures linkedSize == map[]
      ensures mouseButtonState == buttonsDownOnEntry
    {
      status := New;
      showMode := NoMode;
      retval := Retval.NONE;
      needLayout := true;
      invalidateLayoutBlocked := false;
      clickDismiss := false;
      enterDisabled := false;
      escapeDisabled := false;
      exitHook := ExitHooks.Unset;
      linkedSize := map[];
      mouseButtonState := buttonsDownOnEntry;
    }

    // ------------------------------------------------------------ lifecycle

    /** Requests closing: the window is not closed yet, the show loop evaluates the request. */
    method Close()
      modifies this`status
      ensures status == RequestClose
    {
      status := RequestClose;
    }

    /** Stores the return value, and requests closing unless told not to. */
    method SetRetval(value: int, closeWindow: bool)
      modifies this`retval, this`status
      ensures retval == value
      ensures closeWindow ==> status == RequestClose
      ensures !closeWindow ==> status == old(status)
    {
      retval := value;
      if closeWindow {
        Close();
      }
    }

    /** Installs a caller's exit hook under `mode`; the caller's predicate itself is outside the model. */
    method SetExitHook(mode: ExitHooks.Mode)
      modifies this`exitHook
      ensures exitHook == ExitHooks.Installed(mode)
    {
      exitHook := ExitHooks.Installed(mode);
    }

    /**
     * What the installed exit hook answers now: the ok_only wrapper reads the
     * window's return value when it is called, not when it was installed.
     */
    function ExitHookAllowsClose(hookResult: bool): (allowClose: bool)
      reads this`exitHook, this`retval
      requires exitHook.Installed?
      ensures exitHook.mode == ExitHooks.OkOnly && retval != Retval.OK ==> allowClose
      ensures exitHook.mode == ExitHooks.OkOnly && retval == Retval.OK ==> (allowClose <==> hookResult)
      ensures exitHook.mode == ExitHooks.Always ==> (allowClose <==> hookResult)
    {
      ExitHooks.Combine(exitHook.mode, retval, hookResult)
    }

    // ------------------------------------------------------------ click dismissal

    /**
     * Whether a click closes the window. `disableClickDismiss` is the answer of
     * the widget tree, where widgets may block dismissal.
     */
    function DoesClickDismiss(disableClickDismiss: bool): bool
      reads this`clickDismiss
    {
      clickDismiss && !disableClickDismiss
    }

    /**
     * Turns easy closing on or off. Off, no click dismisses whatever the widget
     * tree says; on, a click dismisses unless the widget tree disables it.
     */
    method SetClickDismiss(value: bool)
      modifies this`clickDismiss
      ensures clickDismiss == value
      ensures !value ==> forall disable: bool :: !DoesClickDismiss(disable)
      ensures value ==> DoesClickDismiss(false) && !DoesClickDismiss(true)
    {
      clickDismiss := value;
    }

    /**
     * A mouse release with `mouseButtonMask` (0 from the keyboard) offered for
     * dismissal. A button remembered as down at entry is forgotten instead of
     * dismissing; otherwise the window is dismissed with return value OK.
     * Returns whether the event is handled.
     */
    method ClickDismiss(mouseButtonMask: bv32, disableClickDismiss: bool) returns (handled: bool)
      modifies this`mouseButtonState, this`retval, this`status
      ensures var step := ClickDismissal.Step(DoesClickDismiss(disableClickDismiss), old(mouseButtonState), mouseButtonMask);
        && handled == step.handled
        && mouseButtonState == step.buttonState
        && (step.dismissed ==> retval == Retval.OK && status == RequestClose)
        && (!step.dismissed ==> retval == old(retval) && status == old(status))
      ensures disableClickDismiss || !clickDismiss ==>
        !handled && mouseButtonState == old(mouseButtonState) && retval == old(retval) && status == old(status)
    {
      if DoesClickDismiss(disableClickDismiss) {
        if mouseButtonState & mouseButtonMask == 0 {
          SetRetval(Retval.OK, true);
        } else {
          mouseButtonState := mouseButtonState & !mouseButtonMask;
        }
        handled := true;
      } else {
        handled := false;
      }
    }

    // ------------------------------------------------------------ layout invalidation

    /** Marks the window as needing a layout, unless an invalidate-layout blocker is active. */
    method InvalidateLayout()
      modifies this`needLayout
      ensures !invalidateLayoutBlocked ==> needLayout
      ensures invalidateLayoutBlocked ==> needLayout == old(needLayout)
    {
      if !invalidateLayoutBlocked {
        needLayout := true;
      }
    }

    // ------------------------------------------------------------ flags

    method SetEnterDisabled(value: bool)
      modifies this`enterDisabled
      ensures enterDisabled == value
    {
      enterDisabled := value;
    }

    method SetEscapeDisabled(value: bool)
      modifies this`escapeDisabled
      ensures escapeDisabled == value
    {
      escapeDisabled := value;
    }

    // ------------------------------------------------------------ linked size groups

    /** Whether `groupId` names a group; in a valid window, exactly when get_linked_size knows a size for it. */
    function HasLinkedSizeGroup(groupId: LinkedSizes.GroupId): (has: bool)
      reads this`linkedSize
      ensures Valid() ==> (has <==> GetLinkedSize(groupId) != (-1, -1))
    {
      LinkedSizes.HasGroup(linkedSize, groupId)
    }

    /**
     * The shared (width, height) of group `groupId`, -1 on an axis it does not
     * link, and (-1, -1) when no such group exists.
     */
    function GetLinkedSize(groupId: LinkedSizes.GroupId): (size: (int, int))
      reads this`linkedSize
      ensures groupId !in linkedSize ==> size == (-1, -1)
      ensures groupId in linkedSize ==> size.0 == linkedSize[groupId].width && size.1 == linkedSize[groupId].height
      ensures Valid() && groupId in linkedSize ==> size.0 >= 0 || size.1 >= 0
    {
      LinkedSizes.GetLinkedSize(linkedSize, groupId)
    }

    /**
     * Creates the linked size group `groupId`. Fails, changing nothing, when
     * neither axis is fixed or the group already exists.
     */
    method InitLinkedSizeGroup(groupId: LinkedSizes.GroupId, fixedWidth: bool, fixedHeight: bool) returns (ok: bool)
      requires Valid()
      modifies this`linkedSize
      ensures Valid()
      ensures ok <==> (fixedWidth || fixedHeight) && !LinkedSizes.HasGroup(old(linkedSize), groupId)
      ensures linkedSize == LinkedSizes.InitGroup(old(linkedSize), groupId, fixedWidth, fixedHeight)
    {
      LinkedSizes.InitPreservesValid(linkedSize, groupId, fixedWidth, fixedHeight);
      ok := (fixedWidth || fixedHeight) && groupId !in linkedSize;
      if ok {
        linkedSize := linkedSize[groupId := LinkedSizes.NewLinkedSize(fixedWidth, fixedHeight)];
      }
    }

    /**
     * Adds `widget` to the existing group `groupId`. The widget may be a
     * member of no other group; adding a member again changes nothing.
     */
    method AddLinkedWidget(groupId: LinkedSizes.GroupId, widget: LinkedSizes.WidgetId)
      requires Valid()
      requires LinkedSizes.HasGroup(linkedSize, groupId)
      requires forall other :: other in linkedSize && other != groupId ==> widget !in linkedSize[other].widgets
      modifies this`linkedSize
      ensures Valid()
      ensures linkedSize == LinkedSizes.AddWidget(old(linkedSize), groupId, widget)
    {
      LinkedSizes.AddPreservesValid(linkedSize, groupId, widget);
      var group := linkedSize[groupId];
      var i := LinkedSizes.Find(group.widgets, widget);
      if i == |group.widgets| {
        assert group.widgets[..i] == group.widgets;
        linkedSize := linkedSize[groupId := group.(widgets := group.widgets + [widget])];
      }
    }

    /** Removes `widget` from the existing group `groupId`; a non-member changes nothing. */
    method RemoveLinkedWidget(groupId: LinkedSizes.GroupId, widget: LinkedSizes.WidgetId)
      requires Valid()
      requires LinkedSizes.HasGroup(linkedSize, groupId)
      modifies this`linkedSize
      ensures Valid()
      ensures linkedSize == LinkedSizes.RemoveWidget(old(linkedSize), groupId, widget)
    {
      LinkedSizes.RemovePreservesValid(linkedSize, groupId, widget);
      var group := linkedSize[groupId];
      var i := LinkedSizes.Find(group.widgets, widget);
      if i < |group.widgets| {
        LinkedSizes.EraseAt(group.widgets, i, widget);
        linkedSize := linkedSize[groupId := group.(widgets := group.widgets[..i] + group.widgets[i + 1..])];
      } else {
        assert group.widgets[..i] == group.widgets;
        LinkedSizes.RemoveNonMember(linkedSize, groupId, widget);
      }
    }
  }

  /**
   * A scoped guard that turns invalidate_layout of its window into a no-op
   * while it exists. It cannot be nested: at most one per window at a time.
   */
  class InvalidateLayoutBlocker {
    const window: Window
    /** Whether the guard's scope has not yet ended; a guard ends once, like a destructor. */
    ghost var active: bool

    constructor (window: Window)
      requires !window.invalidateLayoutBlocked
      modifies window`invalidateLayoutBlocked
      ensures this.window == window && active
      ensures window.invalidateLayoutBlocked
    {
      this.window := window;
      active := true;
      new;
      window.invalidateLayoutBlocked := true;
    }

    /** The end of the guard's scope: invalidation works again. */
    method Release()
      requires active && window.invalidateLayoutBlocked
      modifies this`active, window`invalidateLayoutBlocked
      ensures !active
      ensures !window.invalidateLayoutBlocked
    {
      active := false;
      window.invalidateLayoutBlocked := false;
    }
  }
}
