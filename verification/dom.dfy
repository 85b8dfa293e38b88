/** An abstract DOM element: its attributes, its class list (as a set; the
    order of classes plays no part in the script) and its text content. */
module Dom {
  import opened Wrappers

  /** The ARIA attribute that reports whether a control's target is shown. */
  const ExpandedAttr := "aria-expanded"

  datatype Element = Element(attrs: map<string, string>, classes: set<string>, text: string)

  /** `getAttribute(name)`: `null` when the attribute is absent. */
  function GetAttribute(e: Element, name: string): Option<string> {
    if name in e.attrs then Some(e.attrs[name]) else None
  }

  /** `hasAttribute(name)`. */
  predicate HasAttribute(e: Element, name: string) {
    name in e.attrs
  }

  /** `setAttribute(name, value)`: later reads of `name` give `value`. */
  function SetAttribute(e: Element, name: string, value: string): (r: Element)
    ensures GetAttribute(r, name) == Some(value)
    ensures SameExcept(e, r, {name})
  {
    e.(attrs := e.attrs[name := value])
  }

  /** `removeAttribute(name)`: later reads of `name` give `null`. */
  function RemoveAttribute(e: Element, name: string): (r: Element)
    ensures GetAttribute(r, name) == None
    ensures SameExcept(e, r, {name})
  {
    e.(attrs := e.attrs - {name})
  }

  /** `a` and `b` differ at most in the attributes `names`. */
  ghost predicate SameExcept(a: Element, b: Element, names: set<string>) {
    && a.classes == b.classes
    && a.text == b.text
    && forall n :: n !in names ==> GetAttribute(a, n) == GetAttribute(b, n)
  }

  /** `a` and `b` differ at most in whether they carry the class `c`. */
  predicate SameExceptClass(a: Element, b: Element, c: string) {
    && a.attrs == b.attrs
    && a.text == b.text
    && a.classes - {c} == b.classes - {c}
  }
}
