/**
 * The modal dialog: initial focus on activation, the Tab / Shift+Tab focus cycle computed with
 * JavaScript's remainder and `Array.prototype.at`, Escape and backdrop dismissal with focus
 * restore, backdrop extraction from the children, and the ARIA attribute rule.
 */
module Dialog {
  import opened Options
  import opened Strings
  import opened JavaScript
  import Dom

  type Handle = Dom.Handle

  /**
   * The element Tab (`shift` false) or Shift+Tab (`shift` true) focuses when the active element
   * is at `index` of `tabbables`: `tabbables.at((index ± 1) % tabbables.length)`. With no
   * tabbables the remainder is NaN, `at(NaN)` reads index 0 and finds nothing.
   */
  function CycleTarget(tabbables: seq<Handle>, index: int, shift: bool): Option<Handle> {
    if |tabbables| == 0 then None
    else At(tabbables, Rem(if shift then index - 1 else index + 1, |tabbables|))
  }

  // ---------------------------------------------------------------------------
  // Activation and key handling

  /**
   * Where focus is after the effect runs: unchanged when already inside the container, else the
   * `initialFocusRef` target, else the first tabbable, else unchanged (`focus(undefined)`).
   */
  function InitialFocus(inside: set<Handle>, active: Handle, initial: Option<Handle>, tabbables: seq<Handle>): Handle {
    if active in inside then active
    else if initial.Some? then initial.value
    else At(tabbables, 0).GetOr(active)
  }

  /** What a keydown does. */
  datatype KeyEffect = Ignored | Move(target: Option<Handle>) | Close

  /** The keydown handler's decision, made from the focused element's place in the dialog. */
  function KeyEffectOf(inside: set<Handle>, tabbables: seq<Handle>, active: Handle, key: string, shiftKey: bool): KeyEffect {
    if active !in inside then Ignored
    else
      var index := IndexOf(tabbables, active);
      if shiftKey && key == "Tab" then Move(CycleTarget(tabbables, index, true))
      else if key == "Tab" then Move(CycleTarget(tabbables, index, false))
      else if key == "Escape" then Close
      else Ignored
  }

  /** `preventDefault` is called for every handled key. */
  predicate Prevented(effect: KeyEffect) {
    !effect.Ignored?
  }

  /** The host callbacks the dialog invokes. */
  datatype Callback = Dismiss | BackdropOnClick

  /** A child of the dialog: a `Dialog.Backdrop` element (with or without its own `onClick`) or anything else. */
  datatype Child = Backdrop(props: BackdropProps) | Other(tag: nat)

  /** A Backdrop element's props, as far as the dialog looks at them. */
  datatype BackdropProps = BackdropProps(hasOnClick: bool, tag: nat)

  /** The backdrop `Children.forEach` leaves in `backdrop`: the last Backdrop child. */
  function LastBackdrop(children: seq<Child>): Option<BackdropProps>
    decreases |children|
  {
    if children == [] then None
    else if children[|children| - 1].Backdrop? then Some(children[|children| - 1].props)
    else LastBackdrop(children[..|children| - 1])
  }

  /** The `Children.forEach` pass: every Backdrop child overwrites `backdrop`. */
  method ExtractBackdrop(children: seq<Child>) returns (backdrop: Option<BackdropProps>)
    ensures backdrop == LastBackdrop(children)
  {
    backdrop := None;
    var index := 0;
    while index < |children|
      invariant 0 <= index <= |children|
      invariant backdrop == LastBackdrop(children[..index])
    {
      assert children[..index + 1][..index] == children[..index];
      if children[index].Backdrop? {
        backdrop := Some(children[index].props);
      }
      index := index + 1;
    }
    assert children[..|children|] == children;
  }

  /** The children rendered inside the dialog container: every child but the Backdrops, in order. */
  function ContainerChildren(children: seq<Child>): seq<Child>
    decreases |children|
  {
    if children == [] then []
    else (if children[0].Backdrop? then [] else [children[0]]) + ContainerChildren(children[1..])
  }

  /** The dialog's focus trap: the page, the container's elements and the dialog's props. */
  class FocusTrap {
    const page: Dom.Page
    /** The elements `container.contains` accepts: the container and its descendants. */
    const inside: set<Handle>
    const hasOnDismiss: bool
    const previousFocus: Option<Handle>
    /** The clone of the last Backdrop child, if any. */
    const backdrop: Option<BackdropProps>
    var tabbables: seq<Handle>
    /** The callbacks invoked so far, in order. */
    var calls: seq<Callback>

    constructor (page: Dom.Page, inside: set<Handle>, hasOnDismiss: bool, previousFocus: Option<Handle>, children: seq<Child>)
      ensures this.page == page && this.inside == inside
      ensures this.hasOnDismiss == hasOnDismiss && this.previousFocus == previousFocus
      ensures backdrop == LastBackdrop(children)
      ensures tabbables == [] && calls == []
    {
      this.page := page;
      this.inside := inside;
      this.hasOnDismiss := hasOnDismiss;
      this.previousFocus := previousFocus;
      var extracted := ExtractBackdrop(children);
      backdrop := extracted;
      tabbables := [];
      calls := [];
    }

    /** The effect: records the container's tabbables and moves focus into the dialog. */
    method Activate(tabbables: seq<Handle>, initialFocus: Option<Handle>)
      requires Distinct(tabbables) && forall t :: t in tabbables ==> t in inside
      modifies this, page
      ensures this.tabbables == tabbables && calls == old(calls)
      ensures page.active == InitialFocus(inside, old(page.active), initialFocus, tabbables)
    {
      this.tabbables := tabbables;
      if page.active !in inside {
        var target := if initialFocus.Some? then initialFocus else At(tabbables, 0);
        if target.Some? {
          page.Focus(target.value);
        }
      }
    }

    /** `onClose`: `onDismiss` if supplied, then focus the `previousFocusRef` target if any. */
    method OnClose()
      modifies this, page
      ensures calls == old(calls) + (if hasOnDismiss then [Dismiss] else [])
      ensures page.active == previousFocus.GetOr(old(page.active))
      ensures tabbables == old(tabbables)
    {
      if hasOnDismiss {
        calls := calls + [Dismiss];
      }
      if previousFocus.Some? {
        page.Focus(previousFocus.value);
      }
    }

    /** The window keydown handler; `prevented` records `preventDefault`. */
    method OnKeyDown(key: string, shiftKey: bool) returns (prevented: bool)
      modifies this, page
      ensures prevented == Prevented(KeyEffectOf(inside, tabbables, old(page.active), key, shiftKey))
      ensures tabbables == old(tabbables)
      ensures match KeyEffectOf(inside, tabbables, old(page.active), key, shiftKey)
        case Ignored => page.active == old(page.active) && calls == old(calls)
        case Move(target) => page.active == target.GetOr(old(page.active)) && calls == old(calls)
        case Close =>
          page.active == previousFocus.GetOr(old(page.active))
          && calls == old(calls) + (if hasOnDismiss then [Dismiss] else [])
    {
      var effect := KeyEffectOf(inside, tabbables, page.active, key, shiftKey);
      prevented := Prevented(effect);
      match effect
      case Ignored =>
      case Move(target) =>
        if target.Some? {
          page.Focus(target.value);
        }
      case Close =>
        OnClose();
    }

    /**
     * A click on the rendered backdrop: a supplied Backdrop runs its own `onClick`, then
     * `onClose`; the default backdrop's `onClick` is `onDismiss` alone, without focus restore.
     */
    method ClickBackdrop()
      modifies this, page
      ensures tabbables == old(tabbables)
      ensures backdrop.Some? ==>
        calls == old(calls) + (if backdrop.value.hasOnClick then [BackdropOnClick] else [])
          + (if hasOnDismiss then [Dismiss] else [])
        && page.active == previousFocus.GetOr(old(page.active))
      ensures backdrop.None? ==>
        calls == old(calls) + (if hasOnDismiss then [Dismiss] else [])
        && page.active == old(page.active)
    {
      if backdrop.Some? {
        if backdrop.value.hasOnClick {
          calls := calls + [BackdropOnClick];
        }
        OnClose();
      } else if hasOnDismiss {
        calls := calls + [Dismiss];
      }
    }
  }

  // ---------------------------------------------------------------------------
  // Attributes

  /** The container's ARIA attributes. */
  datatype ContainerAttributes = ContainerAttributes(ariaModal: string, role: string, ariaLabelledby: Option<string>, ariaDescribedby: string)

  /** A JavaScript string prop is truthy when present and non-empty. */
  predicate Truthy(s: Option<string>) {
    s.Some? && s.value != ""
  }

  function Attributes(reactId: string, ariaLabel: Option<string>): ContainerAttributes {
    ContainerAttributes("true", "dialog", if Truthy(ariaLabel) then None else Some(reactId + "labelledby"), reactId + "describedby")
  }

  /** `Dialog.Title`'s id: the derived labelledby id unless the title is given its own `id`. */
  function TitleId(reactId: string, explicitId: Option<string>): string {
    explicitId.GetOr(reactId + "labelledby")
  }

  /** `Dialog.Description`'s id: the derived describedby id unless given its own `id`. */
  function DescriptionId(reactId: string, explicitId: Option<string>): string {
    explicitId.GetOr(reactId + "describedby")
  }

  // ---------------------------------------------------------------------------
  // Properties of the cycle

  /** Whatever the index, a non-empty tabbable list yields one of its own elements: `index mod n ± 1`. */
  lemma CycleInRange(tabbables: seq<Handle>, index: int, shift: bool)
    requires |tabbables| > 0
    ensures CycleTarget(tabbables, index, shift).Some?
    ensures CycleTarget(tabbables, index, shift).value in tabbables
    ensures CycleTarget(tabbables, index, shift)
      == Some(tabbables[(if shift then index - 1 else index + 1) % |tabbables|])
  {
    AtRem(tabbables, if shift then index - 1 else index + 1);
  }

  /** Tab from position `i` focuses the next position; the last wraps to the first. */
  lemma TabStep(tabbables: seq<Handle>, i: nat)
    requires i < |tabbables|
    ensures CycleTarget(tabbables, i, false) == Some(tabbables[if i + 1 < |tabbables| then i + 1 else 0])
  {
  }

  /** Shift+Tab from position `i` focuses the previous position; the first wraps to the last. */
  lemma ShiftTabStep(tabbables: seq<Handle>, i: nat)
    requires i < |tabbables|
    ensures CycleTarget(tabbables, i, true) == Some(tabbables[if i > 0 then i - 1 else |tabbables| - 1])
  {
  }

  /**
   * From a focused element inside the dialog that is not tabbable (index -1), Tab focuses the
   * first tabbable and Shift+Tab the second-to-last (`at(-2)`), or the only one.
   */
  lemma CycleFromUntabbable(tabbables: seq<Handle>)
    requires |tabbables| > 0
    ensures CycleTarget(tabbables, -1, false) == Some(tabbables[0])
    ensures |tabbables| >= 2 ==> CycleTarget(tabbables, -1, true) == Some(tabbables[|tabbables| - 2])
    ensures |tabbables| == 1 ==> CycleTarget(tabbables, -1, true) == Some(tabbables[0])
  {
  }

  /**
   * Whatever the index, Shift+Tab lands where `(index - 1 + n) mod n` points, although the
   * remainder the code computes on the way is negative whenever `index - 1` is, and `at` then
   * counts from the end.
   */
  lemma ShiftTabWrapsAround(tabbables: seq<Handle>, index: int)
    requires |tabbables| > 0
    ensures CycleTarget(tabbables, index, true) == Some(tabbables[(index - 1 + |tabbables|) % |tabbables|])
    ensures -|tabbables| < index - 1 < 0 ==> Rem(index - 1, |tabbables|) == index - 1
  {
    CycleInRange(tabbables, index, true);
    ModShift(index - 1, |tabbables|);
  }

  /** The position of a tabbable is found again by `indexOf` when tabbables are distinct. */
  lemma IndexOfDistinct(tabbables: seq<Handle>, i: nat)
    requires Distinct(tabbables) && i < |tabbables|
    ensures IndexOf(tabbables, tabbables[i]) == i
  {
    assert tabbables[i] in tabbables;
  }

  /** The handler's Tab step from an element's handle. */
  function TabFrom(tabbables: seq<Handle>, active: Handle): Handle {
    CycleTarget(tabbables, IndexOf(tabbables, active), false).GetOr(active)
  }

  function ShiftTabFrom(tabbables: seq<Handle>, active: Handle): Handle {
    CycleTarget(tabbables, IndexOf(tabbables, active), true).GetOr(active)
  }

  /** Shift+Tab undoes Tab and Tab undoes Shift+Tab on every tabbable. */
  lemma TabShiftTabInverse(tabbables: seq<Handle>, i: nat)
    requires Distinct(tabbables) && i < |tabbables|
    ensures ShiftTabFrom(tabbables, TabFrom(tabbables, tabbables[i])) == tabbables[i]
    ensures TabFrom(tabbables, ShiftTabFrom(tabbables, tabbables[i])) == tabbables[i]
  {
    var n := |tabbables|;
    var next := if i + 1 < n then i + 1 else 0;
    var previous := if i > 0 then i - 1 else n - 1;
    assert TabFrom(tabbables, tabbables[i]) == tabbables[next] by {
      IndexOfDistinct(tabbables, i);
      TabStep(tabbables, i);
    }
    assert ShiftTabFrom(tabbables, tabbables[next]) == tabbables[i] by {
      IndexOfDistinct(tabbables, next);
      ShiftTabStep(tabbables, next);
    }
    assert ShiftTabFrom(tabbables, tabbables[i]) == tabbables[previous] by {
      IndexOfDistinct(tabbables, i);
      ShiftTabStep(tabbables, i);
    }
    assert TabFrom(tabbables, tabbables[previous]) == tabbables[i] by {
      IndexOfDistinct(tabbables, previous);
      TabStep(tabbables, previous);
    }
  }

  /** Pressing Tab `k` times. */
  function TabsFrom(tabbables: seq<Handle>, active: Handle, k: nat): Handle
    decreases k
  {
    if k == 0 then active else TabsFrom(tabbables, TabFrom(tabbables, active), k - 1)
  }

  /** `k` presses of Tab from position `i` land on position `(i + k) mod n`. */
  lemma {:induction false} TabsOrbit(tabbables: seq<Handle>, i: nat, k: nat)
    requires Distinct(tabbables) && i < |tabbables|
    ensures TabsFrom(tabbables, tabbables[i], k) == tabbables[(i + k) % |tabbables|]
    decreases k
  {
    var n := |tabbables|;
    if k == 0 {
      ModUnique(i, n, 0, i);
    } else {
      var next := if i + 1 < n then i + 1 else 0;
      assert TabFrom(tabbables, tabbables[i]) == tabbables[next] by {
        IndexOfDistinct(tabbables, i);
        TabStep(tabbables, i);
      }
      assert TabsFrom(tabbables, tabbables[i], k) == TabsFrom(tabbables, tabbables[next], k - 1);
      TabsOrbit(tabbables, next, k - 1);
      StepRemainder(i, k, n);
    }
  }

  /** One step and `k - 1` more around a cycle of length `n` make `k` steps. */
  lemma StepRemainder(i: nat, k: nat, n: nat)
    requires i < n && k > 0
    ensures ((if i + 1 < n then i + 1 else 0) + (k - 1)) % n == (i + k) % n
  {
    if i + 1 == n {
      var q, r := (k - 1) / n, (k - 1) % n;
      assert k - 1 == n * q + r;
      ModUnique(i + k, n, q + 1, r);
    }
  }

  /** `n` presses of Tab bring focus back to where it started. */
  lemma TabCycleCloses(tabbables: seq<Handle>, i: nat)
    requires Distinct(tabbables) && i < |tabbables|
    ensures TabsFrom(tabbables, tabbables[i], |tabbables|) == tabbables[i]
  {
    var n := |tabbables|;
    TabsOrbit(tabbables, i, n);
    assert (i + n) % n == i by {
      ModUnique(i + n, n, 1, i);
    }
    assert TabsFrom(tabbables, tabbables[i], n) == tabbables[(i + n) % n];
  }

  /** Activation leaves focus inside the dialog whenever it has a target inside it. */
  lemma InitialFocusTrapped(inside: set<Handle>, active: Handle, initial: Option<Handle>, tabbables: seq<Handle>)
    requires forall t :: t in tabbables ==> t in inside
    requires initial.Some? ==> initial.value in inside
    ensures (active in inside || initial.Some? || |tabbables| > 0) ==> InitialFocus(inside, active, initial, tabbables) in inside
    ensures active !in inside && initial.None? && |tabbables| > 0 ==> InitialFocus(inside, active, initial, tabbables) == tabbables[0]
    ensures active !in inside && initial.None? && tabbables == [] ==> InitialFocus(inside, active, initial, tabbables) == active
  {
  }

  /** Key events are ignored unless the focused element is inside the container. */
  lemma KeysOutsideIgnored(inside: set<Handle>, tabbables: seq<Handle>, active: Handle, key: string, shiftKey: bool)
    requires active !in inside
    ensures KeyEffectOf(inside, tabbables, active, key, shiftKey) == Ignored
  {
  }

  /** `preventDefault` is called exactly for Tab (with or without Shift) and Escape inside the dialog. */
  lemma PreventedKeys(inside: set<Handle>, tabbables: seq<Handle>, active: Handle, key: string, shiftKey: bool)
    ensures Prevented(KeyEffectOf(inside, tabbables, active, key, shiftKey))
      <==> active in inside && (key == "Tab" || key == "Escape")
    ensures active in inside && key == "Escape" ==> KeyEffectOf(inside, tabbables, active, key, shiftKey) == Close
  {
  }

  /** Tab and Shift+Tab keep focus trapped: from inside the dialog, focus never leaves it. */
  lemma TabKeepsFocusInside(inside: set<Handle>, tabbables: seq<Handle>, active: Handle, key: string, shiftKey: bool)
    requires forall t :: t in tabbables ==> t in inside
    requires active in inside
    ensures KeyEffectOf(inside, tabbables, active, key, shiftKey).Move? ==>
      KeyEffectOf(inside, tabbables, active, key, shiftKey).target.GetOr(active) in inside
  {
    if |tabbables| > 0 {
      CycleInRange(tabbables, IndexOf(tabbables, active), true);
      CycleInRange(tabbables, IndexOf(tabbables, active), false);
    }
  }

  /** The last Backdrop child wins; with no Backdrop child the default backdrop is rendered. */
  lemma {:induction false} LastBackdropIsLast(children: seq<Child>)
    ensures LastBackdrop(children).None? <==> forall i :: 0 <= i < |children| ==> !children[i].Backdrop?
    ensures LastBackdrop(children).Some? ==>
              exists i :: 0 <= i < |children| && children[i] == Backdrop(LastBackdrop(children).value)
                && forall j :: i < j < |children| ==> !children[j].Backdrop?
    decreases |children|
  {
    if children != [] && !children[|children| - 1].Backdrop? {
      var prefix := children[..|children| - 1];
      LastBackdropIsLast(prefix);
      if LastBackdrop(prefix).Some? {
        var i :| 0 <= i < |prefix| && prefix[i] == Backdrop(LastBackdrop(prefix).value)
          && forall j :: i < j < |prefix| ==> !prefix[j].Backdrop?;
        assert children[i] == prefix[i];
      }
    }
  }

  /**
   * The container renders no Backdrop, and every other child as often as it occurs among the
   * children (the order is kept, `ContainerChildrenAppend`).
   */
  lemma {:induction false} ContainerChildrenFilter(children: seq<Child>)
    ensures forall c :: c in ContainerChildren(children) ==> c.Other?
    ensures forall c :: c in children && c.Other? ==> c in ContainerChildren(children)
    ensures forall c: Child :: c.Other? ==> multiset(ContainerChildren(children))[c] == multiset(children)[c]
    ensures (forall i :: 0 <= i < |children| ==> children[i].Other?) ==> ContainerChildren(children) == children
    ensures |ContainerChildren(children)| <= |children|
    decreases |children|
  {
    if children != [] {
      ContainerChildrenFilter(children[1..]);
      assert children == [children[0]] + children[1..];
      assert multiset(children) == multiset([children[0]]) + multiset(children[1..]);
      forall c | c in children && c.Other?
        ensures c in ContainerChildren(children)
      {
        if c != children[0] {
          assert c in children[1..];
        }
      }
    }
  }

  /** Filtering the Backdrops out commutes with concatenation, so the other children keep their order. */
  lemma {:induction false} ContainerChildrenAppend(a: seq<Child>, b: seq<Child>)
    ensures ContainerChildren(a + b) == ContainerChildren(a) + ContainerChildren(b)
    decreases |a|
  {
    if a != [] {
      ContainerChildrenAppend(a[1..], b);
      assert (a + b)[1..] == a[1..] + b;
    } else {
      assert a + b == b;
    }
  }

  /** `aria-labelledby` names the title exactly when there is no truthy `aria-label`. */
  lemma LabelRule(reactId: string, ariaLabel: Option<string>)
    ensures Attributes(reactId, ariaLabel).ariaLabelledby.None? <==> Truthy(ariaLabel)
    ensures !Truthy(ariaLabel) ==> Attributes(reactId, ariaLabel).ariaLabelledby == Some(TitleId(reactId, None))
    ensures Attributes(reactId, ariaLabel).ariaDescribedby == DescriptionId(reactId, None)
    ensures TitleId(reactId, None) != DescriptionId(reactId, None)
    ensures Attributes(reactId, ariaLabel).role == "dialog" && Attributes(reactId, ariaLabel).ariaModal == "true"
  {
    assert |TitleId(reactId, None)| != |DescriptionId(reactId, None)|;
  }

  /** Three tabbables a, b, c: Tab from c wraps to a, Shift+Tab from a wraps to c. */
  lemma ThreeTabbables(a: Handle, b: Handle, c: Handle)
    requires Distinct([a, b, c])
    ensures TabFrom([a, b, c], a) == b && TabFrom([a, b, c], b) == c && TabFrom([a, b, c], c) == a
    ensures ShiftTabFrom([a, b, c], a) == c && ShiftTabFrom([a, b, c], c) == b
  {
    IndexOfDistinct([a, b, c], 0);
    IndexOfDistinct([a, b, c], 1);
    IndexOfDistinct([a, b, c], 2);
  }

  /** Escape with `onDismiss` and `previousFocusRef`: the dismiss callback runs and focus is restored. */
  method EscapeScenario(page: Dom.Page, opener: Handle, first: Handle, second: Handle)
    requires opener != first && opener != second && first != second
    modifies page
  {
    var trap := new FocusTrap(page, {first, second}, true, Some(opener), []);
    page.Focus(opener);
    trap.Activate([first, second], None);
    assert page.active == first;
    var prevented := trap.OnKeyDown("Escape", false);
    assert prevented;
    assert trap.calls == [Dismiss];
    assert page.active == opener;
  }
}
