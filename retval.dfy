/**
 * The predefined window return codes the window core refers to. They are
 * declared in gui/widgets/retval.hpp, which is not part of this model. NONE
 * is the default 0 that window.hpp names; the value of OK is a choice of the
 * model, and no property depends on it beyond OK differing from NONE.
 */
module Retval {
  /** The default return value of a window that has not set one. */
  const NONE: int := 0

  /** The return value of a window closed by its OK action (or a click dismissal). */
  const OK: int := -1
}
