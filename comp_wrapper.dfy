/**
  `CompWrapper`: the fluent style handle of one child. Style mutators write
  into the shared directive map and return the handle itself; the property
  shortcuts write straight into the bound widget.
*/
module Wrapper {
  import opened JavaLang
  import opened Awt
  import opened StyleDirectives
  import opened Debug

  class CompWrapper {
    /** The directive map (`map` in the source), held by reference; only the constructors assign it. */
    const styleMap: StyleMap
    /** Written by every layout pass; `null` before the first one. */
    var info: DebugInfo?
    const component: Component?

    /** `CompWrapper()`: no widget, a fresh empty map. */
    constructor ()
      ensures component == null && info == null
      ensures fresh(styleMap) && styleMap.entries == map[]
    {
      component := null;
      info := null;
      styleMap := new StyleMap();
    }

    /** `CompWrapper(component)`: a fresh empty map. */
    constructor Of(component: Component?)
      ensures this.component == component && info == null
      ensures fresh(styleMap) && styleMap.entries == map[]
    {
      this.component := component;
      info := null;
      styleMap := new StyleMap();
    }

    /** `CompWrapper(component, map)`: the given map by reference, or a fresh one for `null`. */
    constructor With(component: Component?, styles: StyleMap?)
      ensures this.component == component && info == null
      ensures styles != null ==> styleMap == styles
      ensures styles == null ==> fresh(styleMap) && styleMap.entries == map[]
    {
      this.component := component;
      info := null;
      if styles == null {
        styleMap := new StyleMap();
      } else {
        styleMap := styles;
      }
    }

    // ALIGNMENT

    method Vertical() returns (r: CompWrapper)
      modifies styleMap
      ensures r == this
      ensures styleMap.entries == old(styleMap.entries)[StyleDirectives.Vertical.key := StyleDirectives.Vertical.value]
    {
      styleMap.Put(StyleDirectives.Vertical.key, StyleDirectives.Vertical.value);
      r := this;
    }

    method Horizontal() returns (r: CompWrapper)
      modifies styleMap
      ensures r == this
      ensures styleMap.entries == old(styleMap.entries)[StyleDirectives.Horizontal.key := StyleDirectives.Horizontal.value]
    {
      styleMap.Put(StyleDirectives.Horizontal.key, StyleDirectives.Horizontal.value);
      r := this;
    }

    // POSITION

    method Left() returns (r: CompWrapper)
      modifies styleMap
      ensures r == this
      ensures styleMap.entries == old(styleMap.entries)[StyleDirectives.Left.key := StyleDirectives.Left.value]
    {
      styleMap.Put(StyleDirectives.Left.key, StyleDirectives.Left.value);
      r := this;
    }

    method Right() returns (r: CompWrapper)
      modifies styleMap
      ensures r == this
      ensures styleMap.entries == old(styleMap.entries)[StyleDirectives.Right.key := StyleDirectives.Right.value]
    {
      styleMap.Put(StyleDirectives.Right.key, StyleDirectives.Right.value);
      r := this;
    }

    method Top() returns (r: CompWrapper)
      modifies styleMap
      ensures r == this
      ensures styleMap.entries == old(styleMap.entries)[StyleDirectives.Top.key := StyleDirectives.Top.value]
    {
      styleMap.Put(StyleDirectives.Top.key, StyleDirectives.Top.value);
      r := this;
    }

    method Bottom() returns (r: CompWrapper)
      modifies styleMap
      ensures r == this
      ensures styleMap.entries == old(styleMap.entries)[StyleDirectives.Bottom.key := StyleDirectives.Bottom.value]
    {
      styleMap.Put(StyleDirectives.Bottom.key, StyleDirectives.Bottom.value);
      r := this;
    }

    method Center() returns (r: CompWrapper)
      modifies styleMap
      ensures r == this
      ensures styleMap.entries == old(styleMap.entries)[StyleDirectives.Center.key := StyleDirectives.Center.value]
    {
      styleMap.Put(StyleDirectives.Center.key, StyleDirectives.Center.value);
      r := this;
    }

    // PADDING

    /** `padding()`: the default padding on all four sides. */
    method DefaultPadding() returns (r: CompWrapper)
      modifies styleMap
      ensures r == this
      ensures styleMap.entries == old(styleMap.entries)[StyleDirectives.PaddingLeft.key := StyleDirectives.PaddingLeft.value]
        [StyleDirectives.PaddingRight.key := StyleDirectives.PaddingRight.value][StyleDirectives.PaddingTop.key := StyleDirectives.PaddingTop.value]
        [StyleDirectives.PaddingBottom.key := StyleDirectives.PaddingBottom.value]
    {
      styleMap.Put(StyleDirectives.PaddingLeft.key, StyleDirectives.PaddingLeft.value);
      styleMap.Put(StyleDirectives.PaddingRight.key, StyleDirectives.PaddingRight.value);
      styleMap.Put(StyleDirectives.PaddingTop.key, StyleDirectives.PaddingTop.value);
      styleMap.Put(StyleDirectives.PaddingBottom.key, StyleDirectives.PaddingBottom.value);
      r := this;
    }

    /** `padding(px)`: the decimal string of `(byte) px` on all four sides. */
    method Padding(px: int) returns (r: CompWrapper)
      modifies styleMap
      ensures r == this
      ensures styleMap.entries.Keys == old(styleMap.entries).Keys + PaddingKeys
      ensures forall k :: k in PaddingKeys ==> styleMap.entries[k] == IntToDecimal(ToByte(px))
      ensures forall k :: k in old(styleMap.entries) && k !in PaddingKeys ==>
        styleMap.entries[k] == old(styleMap.entries)[k]
    {
      var s := IntToDecimal(ToByte(px));
      styleMap.Put(StyleDirectives.PaddingLeft.key, s);
      styleMap.Put(StyleDirectives.PaddingRight.key, s);
      styleMap.Put(StyleDirectives.PaddingTop.key, s);
      styleMap.Put(StyleDirectives.PaddingBottom.key, s);
      r := this;
    }

    /** `paddingLeft()`: the default left padding. */
    method DefaultPaddingLeft() returns (r: CompWrapper)
      modifies styleMap
      ensures r == this
      ensures styleMap.entries == old(styleMap.entries)[StyleDirectives.PaddingLeft.key := StyleDirectives.PaddingLeft.value]
    {
      styleMap.Put(StyleDirectives.PaddingLeft.key, StyleDirectives.PaddingLeft.value);
      r := this;
    }

    method PaddingLeft(px: int) returns (r: CompWrapper)
      modifies styleMap
      ensures r == this
      ensures styleMap.entries == old(styleMap.entries)[StyleDirectives.PaddingLeft.key := IntToDecimal(ToByte(px))]
    {
      styleMap.Put(StyleDirectives.PaddingLeft.key, IntToDecimal(ToByte(px)));
      r := this;
    }

    method DefaultPaddingRight() returns (r: CompWrapper)
      modifies styleMap
      ensures r == this
      ensures styleMap.entries == old(styleMap.entries)[StyleDirectives.PaddingRight.key := StyleDirectives.PaddingRight.value]
    {
      styleMap.Put(StyleDirectives.PaddingRight.key, StyleDirectives.PaddingRight.value);
      r := this;
    }

    method PaddingRight(px: int) returns (r: CompWrapper)
      modifies styleMap
      ensures r == this
      ensures styleMap.entries == old(styleMap.entries)[StyleDirectives.PaddingRight.key := IntToDecimal(ToByte(px))]
    {
      styleMap.Put(StyleDirectives.PaddingRight.key, IntToDecimal(ToByte(px)));
      r := this;
    }

    method DefaultPaddingTop() returns (r: CompWrapper)
      modifies styleMap
      ensures r == this
      ensures styleMap.entries == old(styleMap.entries)[StyleDirectives.PaddingTop.key := StyleDirectives.PaddingTop.value]
    {
      styleMap.Put(StyleDirectives.PaddingTop.key, StyleDirectives.PaddingTop.value);
      r := this;
    }

    method PaddingTop(px: int) returns (r: CompWrapper)
      modifies styleMap
      ensures r == this
      ensures styleMap.entries == old(styleMap.entries)[StyleDirectives.PaddingTop.key := IntToDecimal(ToByte(px))]
    {
      styleMap.Put(StyleDirectives.PaddingTop.key, IntToDecimal(ToByte(px)));
      r := this;
    }

    method DefaultPaddingBottom() returns (r: CompWrapper)
      modifies styleMap
      ensures r == this
      ensures styleMap.entries == old(styleMap.entries)[StyleDirectives.PaddingBottom.key := StyleDirectives.PaddingBottom.value]
    {
      styleMap.Put(StyleDirectives.PaddingBottom.key, StyleDirectives.PaddingBottom.value);
      r := this;
    }

    method PaddingBottom(px: int) returns (r: CompWrapper)
      modifies styleMap
      ensures r == this
      ensures styleMap.entries == old(styleMap.entries)[StyleDirectives.PaddingBottom.key := IntToDecimal(ToByte(px))]
    {
      styleMap.Put(StyleDirectives.PaddingBottom.key, IntToDecimal(ToByte(px)));
      r := this;
    }

    /** `delPadding()`: removes exactly the four padding keys. */
    method DelPadding() returns (r: CompWrapper)
      modifies styleMap
      ensures r == this
      ensures styleMap.entries == old(styleMap.entries) - PaddingKeys
    {
      styleMap.Remove(StyleDirectives.PaddingLeft.key);
      styleMap.Remove(StyleDirectives.PaddingRight.key);
      styleMap.Remove(StyleDirectives.PaddingTop.key);
      styleMap.Remove(StyleDirectives.PaddingBottom.key);
      r := this;
    }

    // Sizing, colours, enabled state and visibility of the wrapped widget

    /** `widthFull()`: `width(100)`, so all four sizes take the parent's full (truncated) width. */
    method WidthFull() returns (r: Result<CompWrapper>)
      modifies AsSet(component)`width, AsSet(component)`height, AsSet(component)`prefSize,
        AsSet(component)`minSize, AsSet(component)`maxSize
      ensures r.Ok? <==> component != null && old(component.parent) != null
      ensures r.Err? ==> r.error == NullPointerException
      ensures r.Err? && component != null ==> unchanged(component)
      ensures r.Ok? ==> r.value == this
      ensures r.Ok? ==>
        var size := Dim(PercentOf(old(component.parent.width), 100), old(component.height));
        component.Size() == size && component.prefSize == size &&
        component.minSize == size && component.maxSize == size
    {
      r := Width(100);
    }

    /**
      `width(widthPercent)`: throws NullPointerException without a widget or
      without a parent; otherwise sets the widget's size, preferred, minimum
      and maximum size to (parentWidth / 100 * widthPercent, its current height).
      Nothing but those four sizes can change.
    */
    method Width(widthPercent: int) returns (r: Result<CompWrapper>)
      modifies AsSet(component)`width, AsSet(component)`height, AsSet(component)`prefSize,
        AsSet(component)`minSize, AsSet(component)`maxSize
      ensures r.Ok? <==> component != null && old(component.parent) != null
      ensures r.Err? ==> r.error == NullPointerException
      ensures r.Err? && component != null ==> unchanged(component)
      ensures r.Ok? ==> r.value == this
      ensures r.Ok? ==>
        var size := Dim(PercentOf(old(component.parent.width), widthPercent), old(component.height));
        component.Size() == size && component.prefSize == size &&
        component.minSize == size && component.maxSize == size
    {
      if component == null || component.parent == null {
        return Err(NullPointerException);
      }
      UpdateWidth(component.parent, component, widthPercent);
      r := Ok(this);
    }

    /** `heightFull()`: `height(100)`, so all four sizes take the parent's full (truncated) height. */
    method HeightFull() returns (r: Result<CompWrapper>)
      modifies AsSet(component)`width, AsSet(component)`height, AsSet(component)`prefSize,
        AsSet(component)`minSize, AsSet(component)`maxSize
      ensures r.Ok? <==> component != null && old(component.parent) != null
      ensures r.Err? ==> r.error == NullPointerException
      ensures r.Err? && component != null ==> unchanged(component)
      ensures r.Ok? ==> r.value == this
      ensures r.Ok? ==>
        var size := Dim(old(component.width), PercentOf(old(component.parent.height), 100));
        component.Size() == size && component.prefSize == size &&
        component.minSize == size && component.maxSize == size
    {
      r := Height(100);
    }

    /** `height(heightPercent)`: symmetric to `width`, keeping the current width. */
    method Height(heightPercent: int) returns (r: Result<CompWrapper>)
      modifies AsSet(component)`width, AsSet(component)`height, AsSet(component)`prefSize,
        AsSet(component)`minSize, AsSet(component)`maxSize
      ensures r.Ok? <==> component != null && old(component.parent) != null
      ensures r.Err? ==> r.error == NullPointerException
      ensures r.Err? && component != null ==> unchanged(component)
      ensures r.Ok? ==> r.value == this
      ensures r.Ok? ==>
        var size := Dim(old(component.width), PercentOf(old(component.parent.height), heightPercent));
        component.Size() == size && component.prefSize == size &&
        component.minSize == size && component.maxSize == size
    {
      if component == null || component.parent == null {
        return Err(NullPointerException);
      }
      UpdateHeight(component.parent, component, heightPercent);
      r := Ok(this);
    }

    /** `updateWidth` as `width` calls it, with the parent already known to exist. */
    static method UpdateWidth(parent: Component, target: Component, widthPercent: int)
      modifies target`width, target`height, target`prefSize, target`minSize, target`maxSize
      ensures var size := Dim(PercentOf(old(parent.width), widthPercent), old(target.height));
        target.Size() == size && target.prefSize == size && target.minSize == size && target.maxSize == size
    {
      var size := Dim(PercentOf(parent.width, widthPercent), target.height);
      target.SetSize(size);
      target.SetPreferredSize(size);
      target.SetMinimumSize(size);
      target.SetMaximumSize(size);
    }

    /** `updateHeight` as `height` calls it, with the parent already known to exist. */
    static method UpdateHeight(parent: Component, target: Component, heightPercent: int)
      modifies target`width, target`height, target`prefSize, target`minSize, target`maxSize
      ensures var size := Dim(old(target.width), PercentOf(old(parent.height), heightPercent));
        target.Size() == size && target.prefSize == size && target.minSize == size && target.maxSize == size
    {
      var size := Dim(target.width, PercentOf(parent.height, heightPercent));
      target.SetSize(size);
      target.SetPreferredSize(size);
      target.SetMinimumSize(size);
      target.SetMaximumSize(size);
    }

    /** `background(color)`: only the widget's background colour can change. */
    method Background(color: Color) returns (r: Result<CompWrapper>)
      modifies AsSet(component)`background
      ensures r.Ok? <==> component != null
      ensures r.Err? ==> r.error == NullPointerException
      ensures r.Ok? ==> r.value == this
      ensures component != null ==> component.background == color
    {
      if component == null {
        return Err(NullPointerException);
      }
      component.SetBackground(color);
      r := Ok(this);
    }

    /** `foreground(color)`: only the widget's foreground colour can change. */
    method Foreground(color: Color) returns (r: Result<CompWrapper>)
      modifies AsSet(component)`foreground
      ensures r.Ok? <==> component != null
      ensures r.Err? ==> r.error == NullPointerException
      ensures r.Ok? ==> r.value == this
      ensures component != null ==> component.foreground == color
    {
      if component == null {
        return Err(NullPointerException);
      }
      component.SetForeground(color);
      r := Ok(this);
    }

    /** `enable()`: only the widget's enabled flag can change. */
    method Enable() returns (r: Result<CompWrapper>)
      modifies AsSet(component)`enabled
      ensures r.Ok? <==> component != null
      ensures r.Err? ==> r.error == NullPointerException
      ensures r.Ok? ==> r.value == this
      ensures component != null ==> component.enabled
    {
      if component == null {
        return Err(NullPointerException);
      }
      component.SetEnabled(true);
      r := Ok(this);
    }

    /** `disable()`: only the widget's enabled flag can change. */
    method Disable() returns (r: Result<CompWrapper>)
      modifies AsSet(component)`enabled
      ensures r.Ok? <==> component != null
      ensures r.Err? ==> r.error == NullPointerException
      ensures r.Ok? ==> r.value == this
      ensures component != null ==> !component.enabled
    {
      if component == null {
        return Err(NullPointerException);
      }
      component.SetEnabled(false);
      r := Ok(this);
    }

    /** `show()`: only the widget's visibility can change. */
    method Show() returns (r: Result<CompWrapper>)
      modifies AsSet(component)`visible
      ensures r.Ok? <==> component != null
      ensures r.Err? ==> r.error == NullPointerException
      ensures r.Ok? ==> r.value == this
      ensures component != null ==> component.visible
    {
      if component == null {
        return Err(NullPointerException);
      }
      component.SetVisible(true);
      r := Ok(this);
    }

    /** `hide()`: only the widget's visibility can change. */
    method Hide() returns (r: Result<CompWrapper>)
      modifies AsSet(component)`visible
      ensures r.Ok? <==> component != null
      ensures r.Err? ==> r.error == NullPointerException
      ensures r.Ok? ==> r.value == this
      ensures component != null ==> !component.visible
    {
      if component == null {
        return Err(NullPointerException);
      }
      component.SetVisible(false);
      r := Ok(this);
    }
  }
}
