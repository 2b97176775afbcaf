/** The part of the document the widgets observe: element handles and the focused element. */
module Dom {

  /** An opaque element handle. Two handles are the same element iff they are equal. */
  type Handle = nat

  /** `document.activeElement`, the one element holding keyboard focus. */
  class Page {
    var active: Handle

    constructor (initial: Handle)
      ensures active == initial
    {
      active := initial;
    }

    /** `element.focus()`: the element becomes the active element. */
    method Focus(h: Handle)
      modifies this
      ensures active == h
    {
      active := h;
    }
  }
}
