/**
  The host toolkit's widget, reduced to what the layout code reads and writes:
  bounds, the preferred/minimum/maximum sizes, visibility, enabled state,
  colours, insets, the parent reference and (for containers) the ordered child
  list. The toolkit itself is not part of this model; these members only pin
  down the effect of each call the layout code makes.
*/
module Awt {
  import opened JavaLang

  /** `java.awt.Dimension`. */
  datatype Dim = Dim(width: int, height: int)

  /** `java.awt.Rectangle`: location and size. */
  datatype Rect = Rect(x: int, y: int, width: int, height: int)

  /** An opaque colour value (`java.awt.Color`). */
  datatype Color = Color(rgb: int)

  /** A scroll bar's range model: the value, its bounds and the visible extent. */
  datatype ScrollBar = ScrollBar(value: int, minimum: int, maximum: int, extent: int)

  /**
    `setValue(v)` on a scroll bar: the value is raised to the minimum and
    then, if the visible extent would pass the maximum, lowered so that it
    ends there.
  */
  function SetValue(bar: ScrollBar, v: int): (r: ScrollBar)
    ensures r.minimum == bar.minimum && r.maximum == bar.maximum && r.extent == bar.extent
  {
    var raised := if v < bar.minimum then bar.minimum else v;
    bar.(value := if raised + bar.extent > bar.maximum then bar.maximum - bar.extent else raised)
  }

  /** On a bar whose extent fits its range, setting the maximum scrolls to the end and setting the minimum to the start. */
  lemma SetValueEnds(bar: ScrollBar)
    requires 0 <= bar.extent && bar.minimum + bar.extent <= bar.maximum
    ensures SetValue(bar, bar.maximum).value + bar.extent == bar.maximum
    ensures SetValue(bar, bar.minimum).value == bar.minimum
  {
  }

  /** Removes every occurrence of `c` from `s`, keeping the order of the rest. */
  function Without(s: seq<Component>, c: Component): (r: seq<Component>)
    ensures |r| <= |s|
  {
    if s == [] then []
    else if s[0] == c then Without(s[1..], c)
    else [s[0]] + Without(s[1..], c)
  }

  /** What is left after removing `c` is exactly the other widgets of the list. */
  lemma {:induction false} WithoutElements(s: seq<Component>, c: Component)
    ensures forall x :: x in Without(s, c) <==> x in s && x != c
  {
    if s != [] {
      WithoutElements(s[1..], c);
      assert forall x :: x in s <==> x == s[0] || x in s[1..];
    }
  }

  /** The position of the first `c` in `s`, or `|s|` when `c` is absent. */
  function IndexOf(s: seq<Component>, c: Component): (i: nat)
    ensures i <= |s|
    ensures i < |s| ==> s[i] == c
    ensures forall k :: 0 <= k < i ==> s[k] != c
  {
    if s == [] then 0
    else if s[0] == c then 0
    else 1 + IndexOf(s[1..], c)
  }

  lemma {:induction false} WithoutAbsent(s: seq<Component>, c: Component)
    requires c !in s
    ensures Without(s, c) == s
  {
    if s != [] {
      WithoutAbsent(s[1..], c);
    }
  }

  /** Removing a widget that is there makes the list shorter. */
  lemma {:induction false} WithoutShorter(s: seq<Component>, c: Component)
    requires c in s
    ensures |Without(s, c)| < |s|
  {
    if s[0] != c {
      WithoutShorter(s[1..], c);
    }
  }

  /** Removing a widget that occurs exactly once, between `a` and `b`, leaves `a` followed by `b`. */
  lemma {:induction false} WithoutSplice(a: seq<Component>, b: seq<Component>, c: Component)
    requires c !in a && c !in b
    ensures Without(a + [c] + b, c) == a + b
  {
    var s := a + [c] + b;
    if a == [] {
      assert s[1..] == b;
      WithoutAbsent(b, c);
    } else {
      assert s[0] == a[0] && s[1..] == a[1..] + [c] + b;
      WithoutSplice(a[1..], b, c);
      assert a + b == [a[0]] + (a[1..] + b);
    }
  }

  /** Removing the only occurrence of `c` splices the list around it. */
  lemma WithoutAtIndex(s: seq<Component>, c: Component)
    requires IndexOf(s, c) < |s|
    requires c !in s[IndexOf(s, c) + 1..]
    ensures Without(s, c) == s[..IndexOf(s, c)] + s[IndexOf(s, c) + 1..]
  {
    var i := IndexOf(s, c);
    assert s == s[..i] + [c] + s[i + 1..];
    WithoutSplice(s[..i], s[i + 1..], c);
  }

  /** No widget appears twice: what the toolkit keeps true of a child list. */
  predicate Unique(s: seq<Component>)
  {
    forall i, j :: 0 <= i < j < |s| ==> s[i] != s[j]
  }

  /** Removing a widget keeps a child list free of repeats, and so does appending the removed widget. */
  lemma {:induction false} WithoutUnique(s: seq<Component>, c: Component)
    requires Unique(s)
    ensures Unique(Without(s, c)) && Unique(Without(s, c) + [c])
  {
    WithoutElements(s, c);
    assert c !in Without(s, c);
    if s != [] {
      WithoutUnique(s[1..], c);
      if s[0] != c {
        var rest := Without(s[1..], c);
        WithoutElements(s[1..], c);
        forall i | 0 <= i < |rest|
          ensures rest[i] != s[0]
        {
          assert rest[i] in rest;
        }
        assert Without(s, c) == [s[0]] + rest;
      }
    }
  }

  /** In a list without repeats, no widget occurs before its own position. */
  lemma UniqueNotBefore(s: seq<Component>, i: nat)
    requires Unique(s) && i < |s|
    ensures s[i] !in s[..i]
  {
  }

  /** Inserting a widget that is not yet a child keeps the list free of repeats. */
  lemma InsertUnique(s: seq<Component>, c: Component, index: nat)
    requires Unique(s) && c !in s && index <= |s|
    ensures Unique(s[..index] + [c] + s[index..])
  {
    var t := s[..index] + [c] + s[index..];
    forall i, j | 0 <= i < j < |t|
      ensures t[i] != t[j]
    {
      if i < index && j > index {
        assert t[j] == s[j - 1];
      } else if i > index {
        assert t[i] == s[i - 1] && t[j] == s[j - 1];
      }
    }
  }

  /** The widget `c` refers to, if any, as a frame. */
  function AsSet(c: Component?): (s: set<Component>)
    ensures c != null <==> c in s
    ensures |s| <= 1
  {
    if c == null then {} else {c}
  }

  class Component {
    var x: int
    var y: int
    var width: int
    var height: int
    var prefSize: Dim
    var minSize: Dim
    var maxSize: Dim
    var visible: bool
    var enabled: bool
    var background: Color
    var foreground: Color
    var insetLeft: int
    var insetTop: int
    /** `getParent()`: the container this widget was last added to. */
    var parent: Component?
    /** `getComponents()`: meaningful for containers only. */
    var children: seq<Component>
    /** The vertical and horizontal scroll bars: meaningful for scroll panes only. */
    var verticalBar: ScrollBar
    var horizontalBar: ScrollBar

    /** A new, detached, visible widget with no size yet. */
    constructor ()
      ensures x == 0 && y == 0 && width == 0 && height == 0
      ensures prefSize == Dim(0, 0) && minSize == Dim(0, 0) && maxSize == Dim(0, 0)
      ensures visible && enabled && insetLeft == 0 && insetTop == 0
      ensures parent == null && children == []
    {
      x, y, width, height := 0, 0, 0, 0;
      prefSize, minSize, maxSize := Dim(0, 0), Dim(0, 0), Dim(0, 0);
      visible, enabled := true, true;
      background, foreground := Color(0), Color(0);
      insetLeft, insetTop := 0, 0;
      parent := null;
      children := [];
      verticalBar, horizontalBar := ScrollBar(0, 0, 100, 10), ScrollBar(0, 0, 100, 10);
    }

    /** `getSize()`. */
    function Size(): Dim
      reads this
    {
      Dim(width, height)
    }

    /** `getBounds()`. */
    function Bounds(): Rect
      reads this
    {
      Rect(x, y, width, height)
    }

    method SetBounds(x: int, y: int, width: int, height: int)
      modifies this`x, this`y, this`width, this`height
      ensures this.x == x && this.y == y && this.width == width && this.height == height
    {
      this.x, this.y, this.width, this.height := x, y, width, height;
    }

    /** `setSize(d)` keeps the location and changes width and height. */
    method SetSize(d: Dim)
      modifies this`width, this`height
      ensures width == d.width && height == d.height
    {
      width, height := d.width, d.height;
    }

    method SetPreferredSize(d: Dim)
      modifies this`prefSize
      ensures prefSize == d
    {
      prefSize := d;
    }

    method SetMinimumSize(d: Dim)
      modifies this`minSize
      ensures minSize == d
    {
      minSize := d;
    }

    method SetMaximumSize(d: Dim)
      modifies this`maxSize
      ensures maxSize == d
    {
      maxSize := d;
    }

    method SetVisible(b: bool)
      modifies this`visible
      ensures visible == b
    {
      visible := b;
    }

    method SetEnabled(b: bool)
      modifies this`enabled
      ensures enabled == b
    {
      enabled := b;
    }

    method SetBackground(c: Color)
      modifies this`background
      ensures background == c
    {
      background := c;
    }

    method SetForeground(c: Color)
      modifies this`foreground
      ensures foreground == c
    {
      foreground := c;
    }

    /** `remove(comp)`: drops `comp` from the children and detaches it if it was ours. */
    method Remove(comp: Component)
      modifies this`children, comp`parent
      ensures children == Without(old(children), comp)
      ensures comp.parent == if old(comp.parent) == this then null else old(comp.parent)
    {
      children := Without(children, comp);
      if comp.parent == this {
        comp.parent := null;
      }
    }

    /**
      `add(comp)`: adding a container to itself throws IllegalArgumentException;
      otherwise the widget first leaves its current parent (possibly this very
      container), then is appended.
    */
    method Add(comp: Component) returns (r: Outcome)
      modifies this`children, comp`parent, AsSet(comp.parent)`children
      ensures r.Fail? <==> comp == this
      ensures r.Fail? ==> r.error == IllegalArgumentException && unchanged(this, comp)
      ensures r.Pass? ==> comp.parent == this
      ensures r.Pass? && old(comp.parent) != null && old(comp.parent) != this ==>
        old(comp.parent).children == Without(old(comp.parent.children), comp)
      ensures r.Pass? ==> children == Without(old(children), comp) + [comp]
    {
      if comp == this {
        return Fail(IllegalArgumentException);
      }
      r := Pass;
      var previous := comp.parent;
      if previous != null && previous != this {
        previous.Remove(comp);
      }
      children := Without(children, comp) + [comp];
      comp.parent := this;
    }

    /**
      `add(comp, index)`: an index beyond the child count, or adding a
      container to itself, throws IllegalArgumentException at once; otherwise
      the widget leaves its current parent (possibly this very container), and
      an index beyond the child count that remains throws with the widget
      detached.
    */
    method AddAt(comp: Component, index: nat) returns (r: Outcome)
      modifies this`children, comp`parent, AsSet(comp.parent)`children
      ensures index > |old(children)| || comp == this ==>
        r == Fail(IllegalArgumentException) && children == old(children) && comp.parent == old(comp.parent)
      ensures index <= |old(children)| && comp != this && old(comp.parent) != null && old(comp.parent) != this ==>
        old(comp.parent).children == Without(old(comp.parent.children), comp)
      ensures index <= |old(children)| && comp != this && index > |Without(old(children), comp)| ==>
        r == Fail(IllegalArgumentException) && children == Without(old(children), comp) && comp.parent == null
      ensures r.Pass? <==> comp != this && index <= |Without(old(children), comp)|
      ensures r.Pass? ==> comp.parent == this
      ensures r.Pass? ==>
        children == Without(old(children), comp)[..index] + [comp] + Without(old(children), comp)[index..]
    {
      if index > |children| || comp == this {
        return Fail(IllegalArgumentException);
      }
      var previous := comp.parent;
      if previous != null && previous != this {
        previous.Remove(comp);
      }
      var rest := Without(children, comp);
      if index > |rest| {
        children := rest;
        comp.parent := null;
        return Fail(IllegalArgumentException);
      }
      children := rest[..index] + [comp] + rest[index..];
      comp.parent := this;
      r := Pass;
    }
  }
}
