/** The icon-id parser of `components/graphic-icon.tsx`. A stored graphic
    is either an emoji or "lucide:<IconName>"; a known icon name renders
    the icon, anything else renders the raw string. Icon components are
    represented by their names. */
module GraphicIcon {
  import opened Wrappers
  import Text
  import Js

  const LucidePrefix: string := "lucide:"

  /** The own keys of `LUCIDE_MAP`, in declaration order, ten at a time. */
  const LucideNames: set<string> := IconGroup1 + IconGroup2 + IconGroup3 + IconGroup4 + IconGroup5 + IconGroup6 + IconGroup7

  const IconGroup1: set<string> := {"Trophy", "Star", "Flame", "Zap", "Target", "Crown", "Heart", "Gem", "Music", "Gamepad2"}
  const IconGroup2: set<string> := {"Sparkles", "Award", "Shield", "Swords", "PartyPopper", "Lightbulb", "Bird", "Fish", "Cat", "Dog"}
  const IconGroup3: set<string> := {"Palette", "Apple", "Beer", "Bike", "Bot", "Bug", "Cake", "Camera", "Car", "Castle"}
  const IconGroup4: set<string> := {"Cherry", "Clover", "Cloud", "CloudRain", "Coffee", "Cookie", "Diamond", "Dices", "Drum", "Flower"}
  const IconGroup5: set<string> := {"Footprints", "Ghost", "Gift", "Grape", "Guitar", "Key", "Lamp", "Laugh", "Leaf", "Medal"}
  const IconGroup6: set<string> := {"Mic", "Moon", "Mountain", "Music2", "Pizza", "Plane", "Rabbit", "Radio", "Rainbow", "Rocket"}
  const IconGroup7: set<string> := {"Ship", "Skull", "Smile", "Snowflake", "Sparkle", "Sun", "Tent", "TreePine", "Turtle", "Wand", "Wine"}

  predicate IsUpperAscii(c: char) { 'A' <= c <= 'Z' }

  /** Every name of a set starts with a capital letter. */
  ghost predicate Capitalised(names: set<string>) {
    forall n :: n in names ==> n != [] && IsUpperAscii(n[0])
  }

  lemma Group1Capitalised() ensures Capitalised(IconGroup1) { }
  lemma Group2Capitalised() ensures Capitalised(IconGroup2) { }
  lemma Group3Capitalised() ensures Capitalised(IconGroup3) { }
  lemma Group4Capitalised() ensures Capitalised(IconGroup4) { }
  lemma Group5Capitalised() ensures Capitalised(IconGroup5) { }
  lemma Group6Capitalised() ensures Capitalised(IconGroup6) { }
  lemma Group7Capitalised() ensures Capitalised(IconGroup7) { }

  /** Every inherited key starts with a lower-case letter or '_'. */
  lemma InheritedKeysLowerCase()
    ensures forall k :: k in Js.ObjectPrototypeKeys ==> k != [] && !IsUpperAscii(k[0])
  {
  }

  /** No inherited key is an icon name. */
  lemma InheritedKeysAreNotIcons(k: string)
    requires k in Js.ObjectPrototypeKeys
    ensures k !in LucideNames
  {
    InheritedKeysLowerCase();
    Group1Capitalised(); Group2Capitalised(); Group3Capitalised(); Group4Capitalised();
    Group5Capitalised(); Group6Capitalised(); Group7Capitalised();
  }

  /** `isLucideId`. */
  predicate IsLucideId(value: string) {
    Text.StartsWith(value, LucidePrefix)
  }

  /** `value.slice(LUCIDE_PREFIX.length)`. */
  function IconName(value: string): (name: string)
    requires IsLucideId(value)
    ensures value == LucidePrefix + name
  {
    value[|LucidePrefix|..]
  }

  /** `getLucideIcon` as written: `LUCIDE_MAP[name] ?? null` reads
      inherited properties too, so an inherited key resolves to the
      function `Object.prototype` holds, not to `null`. The result names
      the property that was found. */
  function GetLucideIconAsWritten(value: string): (icon: Option<string>)
    ensures icon.Some? <==> IsLucideId(value) && (IconName(value) in LucideNames || IconName(value) in Js.ObjectPrototypeKeys)
    ensures icon.Some? ==> icon.value == IconName(value)
  {
    if !IsLucideId(value) then None
    else
      var name := IconName(value);
      if name in LucideNames || name in Js.ObjectPrototypeKeys then Some(name) else None
  }

  /** "lucide:toString" passes the as-written lookup although "toString"
      is no icon: the board then renders `Object.prototype.toString` as
      if it were an icon component. */
  lemma InheritedKeyResolves()
    ensures GetLucideIconAsWritten("lucide:toString") == Some("toString")
    ensures "toString" !in LucideNames
  {
    assert IsLucideId("lucide:toString");
    assert IconName("lucide:toString") == "toString";
    InheritedKeysAreNotIcons("toString");
  }

  /** `getLucideIcon` with an own-property lookup: the icon exactly when
      the value is "lucide:" followed by a name of the map. */
  function GetLucideIcon(value: string): (icon: Option<string>)
    ensures icon.Some? <==> IsLucideId(value) && IconName(value) in LucideNames
    ensures icon.Some? ==> icon.value == IconName(value) && value == LucidePrefix + icon.value
    ensures !IsLucideId(value) ==> icon == None
  {
    if !IsLucideId(value) then None
    else
      var name := IconName(value);
      if name in LucideNames then Some(name) else None
  }

  /** The corrected lookup agrees with the written one on every value
      except "lucide:" followed by an inherited key. */
  lemma LookupsAgreeOffPrototype(value: string)
    ensures !(IsLucideId(value) && IconName(value) in Js.ObjectPrototypeKeys) ==>
      GetLucideIcon(value) == GetLucideIconAsWritten(value)
    ensures IsLucideId(value) && IconName(value) in Js.ObjectPrototypeKeys ==>
      GetLucideIcon(value) == None && GetLucideIconAsWritten(value).Some?
  {
    if IsLucideId(value) && IconName(value) in Js.ObjectPrototypeKeys {
      InheritedKeysAreNotIcons(IconName(value));
    }
  }

  /** What `GraphicIcon` renders. */
  datatype Rendered = IconComponent(name: string) | RawText(text: string)

  /** `GraphicIcon`: the icon when the lookup succeeds, otherwise the raw
      string. */
  function Render(graphic: string): (out: Rendered)
    ensures out.RawText? ==> out.text == graphic
    ensures out.IconComponent? <==> IsLucideId(graphic) && IconName(graphic) in LucideNames
  {
    match GetLucideIcon(graphic)
    case Some(icon) => IconComponent(icon)
    case None => RawText(graphic)
  }

  /** An emoji (anything without the prefix) and an unknown "lucide:X"
      both render as the raw string; a known icon id renders its icon,
      and rendering "lucide:" + a map name gives back that name. */
  lemma RenderCases(graphic: string, name: string)
    ensures !IsLucideId(graphic) ==> Render(graphic) == RawText(graphic)
    ensures name in LucideNames ==> Render(LucidePrefix + name) == IconComponent(name)
    ensures name !in LucideNames ==> Render(LucidePrefix + name) == RawText(LucidePrefix + name)
  {
    assert IsLucideId(LucidePrefix + name);
    assert IconName(LucidePrefix + name) == name;
  }
}
