/**
  `Styles`: the older fluent style handle. Unlike `CompWrapper` its map is a
  public, reassignable field that may be set to `null`, after which every
  directive setter throws; and its size shortcuts pass the widget's current
  pixel size where the other axis's percentage is expected.
*/
module LegacyStyles {
  import opened JavaLang
  import opened Awt
  import opened StyleDirectives
  import opened Debug

  class Styles {
    var styleMap: StyleMap?
    var debugInfo: DebugInfo?
    var component: Component?

    /** `Styles()`: no widget, a fresh empty map. */
    constructor ()
      ensures component == null && debugInfo == null
      ensures styleMap != null && fresh(styleMap) && styleMap.entries == map[]
    {
      component := null;
      debugInfo := null;
      styleMap := new StyleMap();
    }

    /** `Styles(component)`: a fresh empty map. */
    constructor Of(component: Component?)
      ensures this.component == component && debugInfo == null
      ensures styleMap != null && fresh(styleMap) && styleMap.entries == map[]
    {
      this.component := component;
      debugInfo := null;
      styleMap := new StyleMap();
    }

    /** `Styles(component, map)`: the given map by reference, or a fresh one for `null`. */
    constructor With(component: Component?, styles: StyleMap?)
      ensures this.component == component && debugInfo == null
      ensures styleMap != null
      ensures styles != null ==> styleMap == styles
      ensures styles == null ==> fresh(styleMap) && styleMap.entries == map[]
    {
      this.component := component;
      debugInfo := null;
      if styles == null {
        styleMap := new StyleMap();
      } else {
        styleMap := styles;
      }
    }

    /** One `map.put` followed by `return this`. */
    method PutEntry(key: string, value: string) returns (r: Result<Styles>)
      modifies styleMap
      ensures r.Ok? <==> styleMap != null
      ensures r.Err? ==> r.error == NullPointerException
      ensures r.Ok? ==> (r.value == this && styleMap.entries == old(styleMap.entries)[key := value])
    {
      if styleMap == null {
        return Err(NullPointerException);
      }
      styleMap.Put(key, value);
      r := Ok(this);
    }

    // ALIGNMENT

    method Vertical() returns (r: Result<Styles>)
      modifies styleMap
      ensures r.Ok? <==> styleMap != null
      ensures r.Err? ==> r.error == NullPointerException
      ensures r.Ok? ==> (r.value == this &&
        styleMap.entries == old(styleMap.entries)[StyleDirectives.Vertical.key := StyleDirectives.Vertical.value])
    {
      r := PutEntry(StyleDirectives.Vertical.key, StyleDirectives.Vertical.value);
    }

    method Horizontal() returns (r: Result<Styles>)
      modifies styleMap
      ensures r.Ok? <==> styleMap != null
      ensures r.Err? ==> r.error == NullPointerException
      ensures r.Ok? ==> (r.value == this &&
        styleMap.entries == old(styleMap.entries)[StyleDirectives.Horizontal.key := StyleDirectives.Horizontal.value])
    {
      r := PutEntry(StyleDirectives.Horizontal.key, StyleDirectives.Horizontal.value);
    }

    // POSITION

    method Left() returns (r: Result<Styles>)
      modifies styleMap
      ensures r.Ok? <==> styleMap != null
      ensures r.Err? ==> r.error == NullPointerException
      ensures r.Ok? ==> (r.value == this &&
        styleMap.entries == old(styleMap.entries)[StyleDirectives.Left.key := StyleDirectives.Left.value])
    {
      r := PutEntry(StyleDirectives.Left.key, StyleDirectives.Left.value);
    }

    method Right() returns (r: Result<Styles>)
      modifies styleMap
      ensures r.Ok? <==> styleMap != null
      ensures r.Err? ==> r.error == NullPointerException
      ensures r.Ok? ==> (r.value == this &&
        styleMap.entries == old(styleMap.entries)[StyleDirectives.Right.key := StyleDirectives.Right.value])
    {
      r := PutEntry(StyleDirectives.Right.key, StyleDirectives.Right.value);
    }

    method Top() returns (r: Result<Styles>)
      modifies styleMap
      ensures r.Ok? <==> styleMap != null
      ensures r.Err? ==> r.error == NullPointerException
      ensures r.Ok? ==> (r.value == this &&
        styleMap.entries == old(styleMap.entries)[StyleDirectives.Top.key := StyleDirectives.Top.value])
    {
      r := PutEntry(StyleDirectives.Top.key, StyleDirectives.Top.value);
    }

    method Bottom() returns (r: Result<Styles>)
      modifies styleMap
      ensures r.Ok? <==> styleMap != null
      ensures r.Err? ==> r.error == NullPointerException
      ensures r.Ok? ==> (r.value == this &&
        styleMap.entries == old(styleMap.entries)[StyleDirectives.Bottom.key := StyleDirectives.Bottom.value])
    {
      r := PutEntry(StyleDirectives.Bottom.key, StyleDirectives.Bottom.value);
    }

    method Center() returns (r: Result<Styles>)
      modifies styleMap
      ensures r.Ok? <==> styleMap != null
      ensures r.Err? ==> r.error == NullPointerException
      ensures r.Ok? ==> (r.value == this &&
        styleMap.entries == old(styleMap.entries)[StyleDirectives.Center.key := StyleDirectives.Center.value])
    {
      r := PutEntry(StyleDirectives.Center.key, StyleDirectives.Center.value);
    }

    // PADDING

    /** `padding()`: the default padding on all four sides. */
    method DefaultPadding() returns (r: Result<Styles>)
      modifies styleMap
      ensures r.Ok? <==> styleMap != null
      ensures r.Err? ==> r.error == NullPointerException
      ensures r.Ok? ==> (r.value == this &&
        styleMap.entries == old(styleMap.entries)[StyleDirectives.PaddingLeft.key := StyleDirectives.PaddingLeft.value]
          [StyleDirectives.PaddingRight.key := StyleDirectives.PaddingRight.value]
          [StyleDirectives.PaddingTop.key := StyleDirectives.PaddingTop.value]
          [StyleDirectives.PaddingBottom.key := StyleDirectives.PaddingBottom.value])
    {
      if styleMap == null {
        return Err(NullPointerException);
      }
      styleMap.Put(StyleDirectives.PaddingLeft.key, StyleDirectives.PaddingLeft.value);
      styleMap.Put(StyleDirectives.PaddingRight.key, StyleDirectives.PaddingRight.value);
      styleMap.Put(StyleDirectives.PaddingTop.key, StyleDirectives.PaddingTop.value);
      styleMap.Put(StyleDirectives.PaddingBottom.key, StyleDirectives.PaddingBottom.value);
      r := Ok(this);
    }

    /** `padding(px)`: the decimal string of `(byte) px` on all four sides. */
    method Padding(px: int) returns (r: Result<Styles>)
      modifies styleMap
      ensures r.Ok? <==> styleMap != null
      ensures r.Err? ==> r.error == NullPointerException
      ensures r.Ok? ==> r.value == this
      ensures r.Ok? ==> styleMap.entries.Keys == old(styleMap.entries).Keys + PaddingKeys
      ensures r.Ok? ==> forall k :: k in PaddingKeys ==> styleMap.entries[k] == IntToDecimal(ToByte(px))
      ensures r.Ok? ==> forall k :: k in old(styleMap.entries) && k !in PaddingKeys ==>
        styleMap.entries[k] == old(styleMap.entries)[k]
    {
      if styleMap == null {
        return Err(NullPointerException);
      }
      var s := IntToDecimal(ToByte(px));
      styleMap.Put(StyleDirectives.PaddingLeft.key, s);
      styleMap.Put(StyleDirectives.PaddingRight.key, s);
      styleMap.Put(StyleDirectives.PaddingTop.key, s);
      styleMap.Put(StyleDirectives.PaddingBottom.key, s);
      r := Ok(this);
    }

    method DefaultPaddingLeft() returns (r: Result<Styles>)
      modifies styleMap
      ensures r.Ok? <==> styleMap != null
      ensures r.Err? ==> r.error == NullPointerException
      ensures r.Ok? ==> (r.value == this &&
        styleMap.entries == old(styleMap.entries)[StyleDirectives.PaddingLeft.key := StyleDirectives.PaddingLeft.value])
    {
      r := PutEntry(StyleDirectives.PaddingLeft.key, StyleDirectives.PaddingLeft.value);
    }

    method PaddingLeft(px: int) returns (r: Result<Styles>)
      modifies styleMap
      ensures r.Ok? <==> styleMap != null
      ensures r.Err? ==> r.error == NullPointerException
      ensures r.Ok? ==> (r.value == this &&
        styleMap.entries == old(styleMap.entries)[StyleDirectives.PaddingLeft.key := IntToDecimal(ToByte(px))])
    {
      r := PutEntry(StyleDirectives.PaddingLeft.key, IntToDecimal(ToByte(px)));
    }

    method DefaultPaddingRight() returns (r: Result<Styles>)
      modifies styleMap
      ensures r.Ok? <==> styleMap != null
      ensures r.Err? ==> r.error == NullPointerException
      ensures r.Ok? ==> (r.value == this &&
        styleMap.entries == old(styleMap.entries)[StyleDirectives.PaddingRight.key := StyleDirectives.PaddingRight.value])
    {
      r := PutEntry(StyleDirectives.PaddingRight.key, StyleDirectives.PaddingRight.value);
    }

    method PaddingRight(px: int) returns (r: Result<Styles>)
      modifies styleMap
      ensures r.Ok? <==> styleMap != null
      ensures r.Err? ==> r.error == NullPointerException
      ensures r.Ok? ==> (r.value == this &&
        styleMap.entries == old(styleMap.entries)[StyleDirectives.PaddingRight.key := IntToDecimal(ToByte(px))])
    {
      r := PutEntry(StyleDirectives.PaddingRight.key, IntToDecimal(ToByte(px)));
    }

    method DefaultPaddingTop() returns (r: Result<Styles>)
      modifies styleMap
      ensures r.Ok? <==> styleMap != null
      ensures r.Err? ==> r.error == NullPointerException
      ensures r.Ok? ==> (r.value == this &&
        styleMap.entries == old(styleMap.entries)[StyleDirectives.PaddingTop.key := StyleDirectives.PaddingTop.value])
    {
      r := PutEntry(StyleDirectives.PaddingTop.key, StyleDirectives.PaddingTop.value);
    }

    method PaddingTop(px: int) returns (r: Result<Styles>)
      modifies styleMap
      ensures r.Ok? <==> styleMap != null
      ensures r.Err? ==> r.error == NullPointerException
      ensures r.Ok? ==> (r.value == this &&
        styleMap.entries == old(styleMap.entries)[StyleDirectives.PaddingTop.key := IntToDecimal(ToByte(px))])
    {
      r := PutEntry(StyleDirectives.PaddingTop.key, IntToDecimal(ToByte(px)));
    }

    method DefaultPaddingBottom() returns (r: Result<Styles>)
      modifies styleMap
      ensures r.Ok? <==> styleMap != null
      ensures r.Err? ==> r.error == NullPointerException
      ensures r.Ok? ==> (r.value == this &&
        styleMap.entries == old(styleMap.entries)[StyleDirectives.PaddingBottom.key := StyleDirectives.PaddingBottom.value])
    {
      r := PutEntry(StyleDirectives.PaddingBottom.key, StyleDirectives.PaddingBottom.value);
    }

    method PaddingBottom(px: int) returns (r: Result<Styles>)
      modifies styleMap
      ensures r.Ok? <==> styleMap != null
      ensures r.Err? ==> r.error == NullPointerException
      ensures r.Ok? ==> (r.value == this &&
        styleMap.entries == old(styleMap.entries)[StyleDirectives.PaddingBottom.key := IntToDecimal(ToByte(px))])
    {
      r := PutEntry(StyleDirectives.PaddingBottom.key, IntToDecimal(ToByte(px)));
    }

    /** `delPadding()`: removes exactly the four padding keys. */
    method DelPadding() returns (r: Result<Styles>)
      modifies styleMap
      ensures r.Ok? <==> styleMap != null
      ensures r.Err? ==> r.error == NullPointerException
      ensures r.Ok? ==> (r.value == this && styleMap.entries == old(styleMap.entries) - PaddingKeys)
    {
      if styleMap == null {
        return Err(NullPointerException);
      }
      styleMap.Remove(StyleDirectives.PaddingLeft.key);
      styleMap.Remove(StyleDirectives.PaddingRight.key);
      styleMap.Remove(StyleDirectives.PaddingTop.key);
      styleMap.Remove(StyleDirectives.PaddingBottom.key);
      r := Ok(this);
    }

    /** `getMap()`: the map itself, not a copy. */
    function GetMap(): (m: StyleMap?)
      reads this
      ensures m == styleMap
    {
      styleMap
    }

    /** `setMap(m)`: from now on the setters write into `m` (which may be `null`). */
    method SetMap(m: StyleMap?)
      modifies this`styleMap
      ensures styleMap == m
    {
      styleMap := m;
    }

    // Sizing, colours, enabled state and visibility of the wrapped widget

    /** `widthFull()`: `width(100)`, with the same height-as-percentage mix-up. */
    method WidthFull() returns (r: Result<Styles>)
      modifies AsSet(component)`width, AsSet(component)`height, AsSet(component)`prefSize,
        AsSet(component)`minSize, AsSet(component)`maxSize
      ensures r.Ok? <==> old(component) != null && old(component.parent) != null
      ensures r.Err? ==> r.error == NullPointerException
      ensures r.Err? && component != null ==> unchanged(component)
      ensures r.Ok? ==> r.value == this
      ensures r.Ok? ==>
        var size := Dim(PercentOf(old(component.parent.width), 100),
                        PercentOf(old(component.parent.height), old(component.height)));
        component.Size() == size && component.prefSize == size &&
        component.minSize == size && component.maxSize == size
    {
      r := Width(100);
    }

    /**
      `width(widthPercent)`: throws NullPointerException without a widget or a
      parent. Otherwise the new height is also a percentage of the parent's,
      and the percentage used is the widget's current height in pixels.
      Nothing but the four sizes can change.
    */
    method Width(widthPercent: int) returns (r: Result<Styles>)
      modifies AsSet(component)`width, AsSet(component)`height, AsSet(component)`prefSize,
        AsSet(component)`minSize, AsSet(component)`maxSize
      ensures r.Ok? <==> old(component) != null && old(component.parent) != null
      ensures r.Err? ==> r.error == NullPointerException
      ensures r.Err? && component != null ==> unchanged(component)
      ensures r.Ok? ==> r.value == this
      ensures r.Ok? ==>
        var size := Dim(PercentOf(old(component.parent.width), widthPercent),
                        PercentOf(old(component.parent.height), old(component.height)));
        component.Size() == size && component.prefSize == size &&
        component.minSize == size && component.maxSize == size
    {
      if component == null || component.parent == null {
        return Err(NullPointerException);
      }
      UpdateSizes(component.parent, component, widthPercent, component.height);
      r := Ok(this);
    }

    /** `heightFull()`: `height(100)`, with the width taken as a percentage. */
    method HeightFull() returns (r: Result<Styles>)
      modifies AsSet(component)`width, AsSet(component)`height, AsSet(component)`prefSize,
        AsSet(component)`minSize, AsSet(component)`maxSize
      ensures r.Ok? <==> old(component) != null && old(component.parent) != null
      ensures r.Err? ==> r.error == NullPointerException
      ensures r.Err? && component != null ==> unchanged(component)
      ensures r.Ok? ==> r.value == this
      ensures r.Ok? ==>
        var size := Dim(PercentOf(old(component.parent.width), old(component.width)),
                        PercentOf(old(component.parent.height), 100));
        component.Size() == size && component.prefSize == size &&
        component.minSize == size && component.maxSize == size
    {
      r := Height(100);
    }

    /** `height(heightPercent)`: symmetric to `width`, with the current width as the width percentage. */
    method Height(heightPercent: int) returns (r: Result<Styles>)
      modifies AsSet(component)`width, AsSet(component)`height, AsSet(component)`prefSize,
        AsSet(component)`minSize, AsSet(component)`maxSize
      ensures r.Ok? <==> old(component) != null && old(component.parent) != null
      ensures r.Err? ==> r.error == NullPointerException
      ensures r.Err? && component != null ==> unchanged(component)
      ensures r.Ok? ==> r.value == this
      ensures r.Ok? ==>
        var size := Dim(PercentOf(old(component.parent.width), old(component.width)),
                        PercentOf(old(component.parent.height), heightPercent));
        component.Size() == size && component.prefSize == size &&
        component.minSize == size && component.maxSize == size
    {
      if component == null || component.parent == null {
        return Err(NullPointerException);
      }
      UpdateSizes(component.parent, component, component.width, heightPercent);
      r := Ok(this);
    }

    /** `updateSizes` as both callers use it, with the parent already known to exist. */
    static method UpdateSizes(parent: Component, target: Component, widthPercent: int, heightPercent: int)
      modifies target`width, target`height, target`prefSize, target`minSize, target`maxSize
      ensures var size := Dim(PercentOf(old(parent.width), widthPercent), PercentOf(old(parent.height), heightPercent));
        target.Size() == size && target.prefSize == size && target.minSize == size && target.maxSize == size
    {
      var size := Dim(PercentOf(parent.width, widthPercent), PercentOf(parent.height, heightPercent));
      target.SetSize(size);
      target.SetPreferredSize(size);
      target.SetMinimumSize(size);
      target.SetMaximumSize(size);
    }

    /** `background(color)`: only the widget's background colour can change. */
    method Background(color: Color) returns (r: Result<Styles>)
      modifies AsSet(component)`background
      ensures r.Ok? <==> component != null
      ensures r.Err? ==> r.error == NullPointerException
      ensures r.Ok? ==> r.value == this
      ensures component != null ==> component.background == color
    {
      if component == null {
        return Err(NullPointerException);
      }
      component.SetBackground(color);
      r := Ok(this);
    }

    /** `foreground(color)`: only the widget's foreground colour can change. */
    method Foreground(color: Color) returns (r: Result<Styles>)
      modifies AsSet(component)`foreground
      ensures r.Ok? <==> component != null
      ensures r.Err? ==> r.error == NullPointerException
      ensures r.Ok? ==> r.value == this
      ensures component != null ==> component.foreground == color
    {
      if component == null {
        return Err(NullPointerException);
      }
      component.SetForeground(color);
      r := Ok(this);
    }

    /** `enable()`: only the widget's enabled flag can change. */
    method Enable() returns (r: Result<Styles>)
      modifies AsSet(component)`enabled
      ensures r.Ok? <==> component != null
      ensures r.Err? ==> r.error == NullPointerException
      ensures r.Ok? ==> r.value == this
      ensures component != null ==> component.enabled
    {
      if component == null {
        return Err(NullPointerException);
      }
      component.SetEnabled(true);
      r := Ok(this);
    }

    /** `disable()`: only the widget's enabled flag can change. */
    method Disable() returns (r: Result<Styles>)
      modifies AsSet(component)`enabled
      ensures r.Ok? <==> component != null
      ensures r.Err? ==> r.error == NullPointerException
      ensures r.Ok? ==> r.value == this
      ensures component != null ==> !component.enabled
    {
      if component == null {
        return Err(NullPointerException);
      }
      component.SetEnabled(false);
      r := Ok(this);
    }

    /** `show()`: only the widget's visibility can change. */
    method Show() returns (r: Result<Styles>)
      modifies AsSet(component)`visible
      ensures r.Ok? <==> component != null
      ensures r.Err? ==> r.error == NullPointerException
      ensures r.Ok? ==> r.value == this
      ensures component != null ==> component.visible
    {
      if component == null {
        return Err(NullPointerException);
      }
      component.SetVisible(true);
      r := Ok(this);
    }

    /** `hide()`: only the widget's visibility can change. */
    method Hide() returns (r: Result<Styles>)
      modifies AsSet(component)`visible
      ensures r.Ok? <==> component != null
      ensures r.Err? ==> r.error == NullPointerException
      ensures r.Ok? ==> r.value == this
      ensures component != null ==> !component.visible
    {
      if component == null {
        return Err(NullPointerException);
      }
      component.SetVisible(false);
      r := Ok(this);
    }
  }

  /**
    The size shortcut's mix-up, for every parent and widget: the height that
    `Styles.width` gives a widget equals the height it had (what
    `CompWrapper.width` keeps) only when that height is 0 or the parent is
    between 100 and 199 pixels high. In a 1000-high parent every nonzero
    height changes, e.g. 40 becomes 400.
  */
  lemma WidthUsesHeightAsPercent(parentHeight: int, height: int)
    requires parentHeight >= 0
    ensures PercentOf(parentHeight, height) == height <==> height == 0 || parentHeight / 100 == 1
  {
  }
}
