/**
  The style directive map: string keys and values, as the `Style` enum pairs
  them, stored in a `java.util.HashMap` that wrappers hold by reference.
*/
module StyleDirectives {
  import opened JavaLang

  /** One constant of the `Style` enum: the key it writes and the value it writes there. */
  datatype StyleEntry = StyleEntry(key: string, value: string)

  // The `Style` enum itself is not part of this model. These constants stand
  // in for its entries: the two axis directives write different values under
  // one shared key (`isHorizontal` looks for the horizontal value under the
  // vertical key), every other key differs from all the rest, and each default
  // padding value is a decimal byte.
  const Vertical := StyleEntry("alignment", "vertical")
  const Horizontal := StyleEntry("alignment", "horizontal")
  const Left := StyleEntry("left", "left")
  const Right := StyleEntry("right", "right")
  const Top := StyleEntry("top", "top")
  const Bottom := StyleEntry("bottom", "bottom")
  const Center := StyleEntry("center", "center")
  const PaddingLeft := StyleEntry("padding-left", "5")
  const PaddingRight := StyleEntry("padding-right", "5")
  const PaddingTop := StyleEntry("padding-top", "5")
  const PaddingBottom := StyleEntry("padding-bottom", "5")

  /** The four keys `delPadding` removes and the layout pass reads. */
  const PaddingKeys: set<string> := {PaddingLeft.key, PaddingRight.key, PaddingTop.key, PaddingBottom.key}

  /** The entries of a container's default child style, `center().padding()` on an empty map. */
  const DefaultChildStyles: map<string, string> :=
    map[Center.key := Center.value,
        PaddingLeft.key := PaddingLeft.value, PaddingRight.key := PaddingRight.value,
        PaddingTop.key := PaddingTop.value, PaddingBottom.key := PaddingBottom.value]

  /**
    `isHorizontal`: the entry under the vertical key, defaulting to the
    horizontal value when absent, is the horizontal value.
  */
  predicate IsHorizontal(m: map<string, string>)
  {
    var alignment := if Vertical.key in m then m[Vertical.key] else Horizontal.value;
    alignment == Horizontal.value
  }

  /** Both directions of `isHorizontal`, and what each axis setter does to it. */
  lemma IsHorizontalMeaning(m: map<string, string>)
    ensures IsHorizontal(m) <==> Vertical.key !in m || m[Vertical.key] == Horizontal.value
    ensures !IsHorizontal(m[Vertical.key := Vertical.value])
    ensures IsHorizontal(m[Horizontal.key := Horizontal.value])
    ensures IsHorizontal(map[])
  {
  }

  /** The default child style carries no axis, so on its own it lays out horizontally. */
  lemma DefaultChildStylesAreHorizontal()
    ensures Vertical.key !in DefaultChildStyles && IsHorizontal(DefaultChildStyles)
    ensures DefaultChildStyles.Keys == PaddingKeys + {Center.key}
  {
  }

  /** The default padding values are bytes, so the layout pass can parse them. */
  lemma DefaultPaddingParses()
    ensures ParseByte(PaddingLeft.value) == Ok(5) && ParseByte(PaddingRight.value) == Ok(5)
    ensures ParseByte(PaddingTop.value) == Ok(5) && ParseByte(PaddingBottom.value) == Ok(5)
  {
  }

  /** Removing the padding keys keeps every other entry and is idempotent. */
  lemma RemovePaddingKeys(m: map<string, string>)
    ensures (m - PaddingKeys).Keys == m.Keys - PaddingKeys
    ensures forall k :: k in m && k !in PaddingKeys ==> (m - PaddingKeys)[k] == m[k]
    ensures (m - PaddingKeys) - PaddingKeys == m - PaddingKeys
  {
  }

  /** `java.util.HashMap<String, String>`, shared by reference. */
  class StyleMap {
    var entries: map<string, string>

    constructor ()
      ensures entries == map[]
    {
      entries := map[];
    }

    /** `get(key)`: `null` when the key is absent. */
    function Get(key: string): (r: Option<string>)
      reads this
      ensures r.Some? <==> key in entries
      ensures r.Some? ==> r.value == entries[key]
    {
      if key in entries then Some(entries[key]) else None
    }

    /** `put(key, value)`: a later put on the same key overwrites. */
    method Put(key: string, value: string)
      modifies this
      ensures entries == old(entries)[key := value]
    {
      entries := entries[key := value];
    }

    method Remove(key: string)
      modifies this
      ensures entries == old(entries) - {key}
    {
      entries := entries - {key};
    }

    /** `putAll(other)`: copies the entries, not the reference. */
    method PutAll(other: StyleMap)
      modifies this
      ensures entries == old(entries) + old(other.entries)
    {
      entries := entries + other.entries;
    }
  }
}
