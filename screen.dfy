/** The top-level container of a UI display: a list of element references
    with set semantics, changed in place, and a dirty flag. */
module UI {

  /** A UI element, compared by reference as the screen compares its shared
      pointers. An empty pointer is `null`: one more value the screen can hold. */
  class UIElement {
  }

  /** The engine's exception codes that a screen can raise. */
  datatype ExceptionCode = ContainerValue

  /** An exception raised by a failed `CheckException`. */
  datatype Exception = Exception(code: ExceptionCode, message: string)

  datatype Outcome = Pass | Fail(error: Exception)

  const DuplicateMessage: string := "Cannot add a duplicate element to UI screen!"

  /** No element occurs twice. */
  predicate NoDuplicates<T(==)>(s: seq<T>) {
    forall i, j :: 0 <= i < j < |s| ==> s[i] != s[j]
  }

  /** The position of the first occurrence of `x` in `s`. */
  function FirstIndex<T(==)>(s: seq<T>, x: T): (i: nat)
    requires x in s
    ensures i < |s| && s[i] == x && x !in s[..i]
  {
    if s[0] == x then 0
    else
      assert s == [s[0]] + s[1..];
      var j := FirstIndex(s[1..], x);
      assert s[..j + 1] == [s[0]] + s[1..][..j];
      j + 1
  }

  /** `std::find`: the position of the first occurrence of `x` in `s`, or
      `|s|` (the end) when there is none. */
  method Find<T(==)>(s: seq<T>, x: T) returns (i: nat)
    ensures i <= |s|
    ensures x !in s ==> i == |s|
    ensures x in s ==> i == FirstIndex(s, x)
  {
    i := 0;
    while i < |s| && s[i] != x
      invariant i <= |s| && x !in s[..i]
    {
      assert s[..i + 1] == s[..i] + [s[i]];
      i := i + 1;
    }
    if i == |s| {
      assert s[..i] == s;
    }
  }

  /** `s` with the first occurrence of `x` erased, or `s` itself if `x` does not occur. */
  function RemoveFirst<T(==)>(s: seq<T>, x: T): (r: seq<T>)
    ensures x in s ==> |r| == |s| - 1
    ensures x !in s ==> r == s
  {
    if x in s then
      var i := FirstIndex(s, x);
      s[..i] + s[i + 1..]
    else s
  }

  /** Erasing the first occurrence removes one copy of `x` and nothing else:
      the length drops by one and every other element keeps its count. */
  lemma RemoveFirstOne<T>(s: seq<T>, x: T)
    requires x in s
    ensures |RemoveFirst(s, x)| == |s| - 1
    ensures multiset(RemoveFirst(s, x)) == multiset(s) - multiset{x}
  {
    var i := FirstIndex(s, x);
    assert s == s[..i] + [x] + s[i + 1..];
  }

  /** The elements before the first occurrence stay where they are, and the
      ones after it move up by one: their relative order is kept. */
  lemma RemoveFirstKeepsOrder<T>(s: seq<T>, x: T)
    requires x in s
    ensures var i := FirstIndex(s, x);
            |RemoveFirst(s, x)| == |s| - 1 &&
            (forall k :: 0 <= k < i ==> RemoveFirst(s, x)[k] == s[k]) &&
            (forall k :: i <= k < |s| - 1 ==> RemoveFirst(s, x)[k] == s[k + 1])
  {
    var i := FirstIndex(s, x);
    var left, right := s[..i], s[i + 1..];
    assert RemoveFirst(s, x) == left + right;
    assert forall k :: 0 <= k < i ==> (left + right)[k] == left[k] == s[k];
    assert forall k :: i <= k < |s| - 1 ==> (left + right)[k] == right[k - i] == s[k + 1];
  }

  /** Appending a new element keeps a list free of duplicates. */
  lemma AppendKeepsNoDuplicates<T>(s: seq<T>, x: T)
    requires NoDuplicates(s) && x !in s
    ensures NoDuplicates(s + [x])
  {
    var t := s + [x];
    forall i, j | 0 <= i < j < |t| ensures t[i] != t[j] {
      if j == |s| {
        assert t[i] == s[i];
      }
    }
  }

  /** Erasing an element keeps a list free of duplicates, and then the
      element no longer occurs. */
  lemma RemoveKeepsNoDuplicates<T>(s: seq<T>, x: T)
    requires NoDuplicates(s)
    ensures NoDuplicates(RemoveFirst(s, x))
    ensures x !in RemoveFirst(s, x)
  {
    if x in s {
      var i := FirstIndex(s, x);
      var r := RemoveFirst(s, x);
      assert forall k :: 0 <= k < |r| ==> r[k] == s[if k < i then k else k + 1];
      forall a, b | 0 <= a < b < |r| ensures r[a] != r[b] {
        var a', b' := if a < i then a else a + 1, if b < i then b else b + 1;
        assert r[a] == s[a'] && r[b] == s[b'] && a' < b';
      }
      forall k | 0 <= k < |r| ensures r[k] != x {
        var k' := if k < i then k else k + 1;
        assert r[k] == s[k'] && k' != i;
      }
    }
  }

  /** Adding a fresh element and then deleting it gives back the original list. */
  lemma AddThenDelete<T>(s: seq<T>, x: T)
    requires x !in s
    ensures RemoveFirst(s + [x], x) == s
  {
    var t := s + [x];
    assert t[|s|] == x;
    assert t[..|s|] == s;
  }

  class Screen {
    var elements: seq<UIElement?>
    var dirty: bool

    /** The class invariant: no element is contained twice. */
    ghost predicate Valid()
      reads this
    {
      NoDuplicates(elements)
    }

    /** An empty screen. The engine leaves `dirty` uninitialised; here the
        creator chooses its first value. */
    constructor(initiallyDirty: bool)
      ensures elements == [] && dirty == initiallyDirty && Valid()
    {
      elements, dirty := [], initiallyDirty;
    }

    /** Whether `elem` is contained: the search stops before the end. */
    method HasElement(elem: UIElement?) returns (found: bool)
      ensures found <==> elem in elements
    {
      var at := Find(elements, elem);
      found := at != |elements|;
    }

    /** Adding an element that is already contained raises a `ContainerValue`
        exception and changes nothing; otherwise the element goes at the end. */
    method AddElement(elem: UIElement?) returns (r: Outcome)
      modifies this
      ensures old(elem in elements) ==>
                r == Fail(Exception(ContainerValue, DuplicateMessage)) && elements == old(elements)
      ensures old(elem !in elements) ==> r == Pass && elements == old(elements) + [elem]
      ensures dirty == old(dirty)
      ensures old(Valid()) ==> Valid()
    {
      var present := HasElement(elem);
      if present {
        return Fail(Exception(ContainerValue, DuplicateMessage));
      }
      if Valid() {
        AppendKeepsNoDuplicates(elements, elem);
      }
      elements := elements + [elem];
      r := Pass;
    }

    /** Deleting an element that is not contained raises a `ContainerValue`
        exception (with the same message as a duplicate add) and changes
        nothing; otherwise its first occurrence is erased. */
    method DeleteElement(elem: UIElement?) returns (r: Outcome)
      modifies this
      ensures old(elem !in elements) ==>
                r == Fail(Exception(ContainerValue, DuplicateMessage)) && elements == old(elements)
      ensures old(elem in elements) ==> r == Pass && elements == RemoveFirst(old(elements), elem)
      ensures dirty == old(dirty)
      ensures old(Valid()) ==> Valid() && elem !in elements
    {
      var present := HasElement(elem);
      if !present {
        return Fail(Exception(ContainerValue, DuplicateMessage));
      }
      var i := Find(elements, elem);
      if Valid() {
        RemoveKeepsNoDuplicates(elements, elem);
      }
      elements := elements[..i] + elements[i + 1..];
      r := Pass;
    }

    /** Records that the changes have been seen: the screen is no longer dirty. */
    method NotifyClean()
      modifies this
      ensures !dirty && elements == old(elements)
    {
      dirty := false;
    }
  }

  /** Adding a new element to a screen and deleting it again leaves the
      screen's elements as they were, and the element no longer contained. */
  method AddThenDeleteRestores(screen: Screen, elem: UIElement?)
    requires screen.Valid() && elem !in screen.elements
    modifies screen
    ensures screen.elements == old(screen.elements) && screen.Valid()
  {
    var added := screen.AddElement(elem);
    var deleted := screen.DeleteElement(elem);
    AddThenDelete(old(screen.elements), elem);
    var present := screen.HasElement(elem);
    assert !present;
  }
}
