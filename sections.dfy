/** Mapping from the id of a page section to the index of its navigation dot
    (`getSectionIndex`), both as the object-literal lookup is written and as
    it is evidently meant. */
module Sections {

  /** The seven navigable sections in page order: section k owns nav dot k. */
  const SectionIds: seq<string> :=
    ["hero", "chapter-1", "chapter-2", "chapter-3", "chapter-4", "chapter-5", "finale"]

  /** The object literal `sectionMap`, as its own properties. */
  const SectionMap: map<string, nat> :=
    map["hero" := 0, "chapter-1" := 1, "chapter-2" := 2, "chapter-3" := 3,
        "chapter-4" := 4, "chapter-5" := 5, "finale" := 6]

  /** A section id is one of the seven ids of the page. */
  predicate IsSectionId(sectionId: string)
  {
    exists k :: 0 <= k < |SectionIds| && SectionIds[k] == sectionId
  }

  /** The section-id lookup with its default: the empty id and "hero" give
      the hero dot 0; one of the seven ids gives its position in page order;
      every other string gives 0 as well. */
  function SectionIndex(sectionId: string): (r: nat)
    ensures r < |SectionIds|
    ensures forall k :: 0 <= k < |SectionIds| && SectionIds[k] == sectionId ==> r == k
    ensures r != 0 ==> SectionIds[r] == sectionId
    ensures !IsSectionId(sectionId) ==> r == 0
  {
    if sectionId == "" || sectionId == "hero" then 0
    else if sectionId in SectionMap then SectionMap[sectionId]
    else 0
  }

  /** Each nav dot is named by exactly one id: looking up the id of dot k
      gives k back, and a non-zero index names exactly one id. */
  lemma SectionIndexRoundTrip(k: nat, sectionId: string)
    requires k < |SectionIds|
    ensures SectionIndex(SectionIds[k]) == k
    ensures 0 < k ==> (SectionIndex(sectionId) == k <==> sectionId == SectionIds[k])
  {
  }

  // ---------------------------------------------------------------------
  // The lookup as written. `sectionMap[sectionId]` on a JavaScript object
  // literal also finds the members every object inherits from
  // Object.prototype (section 20.1.3 of ECMA-262, and `__proto__` and the
  // legacy accessor helpers of its Annex B.2.2). Those values are functions
  // or objects, not null or undefined, so `?? 0` keeps them.
  // ---------------------------------------------------------------------

  /** Property names every plain object inherits from Object.prototype. */
  const ObjectPrototypeNames: set<string> :=
    {"constructor", "hasOwnProperty", "isPrototypeOf", "propertyIsEnumerable",
     "toLocaleString", "toString", "valueOf", "__proto__",
     "__defineGetter__", "__defineSetter__", "__lookupGetter__", "__lookupSetter__"}

  /** What a property read on `sectionMap` can yield. */
  datatype JsValue = Number(n: nat) | Undefined | Inherited(name: string)

  /** `sectionMap[name]`: an own property, an inherited one, or undefined. */
  function PropertyRead(name: string): (v: JsValue)
    ensures v.Number? <==> name in SectionMap
    ensures v.Number? ==> v.n == SectionMap[name]
    ensures v.Inherited? <==> name !in SectionMap && name in ObjectPrototypeNames
    ensures v.Inherited? ==> v.name == name
  {
    if name in SectionMap then Number(SectionMap[name])
    else if name in ObjectPrototypeNames then Inherited(name)
    else Undefined
  }

  /** `getSectionIndex` exactly as written: the early return for a falsy id
      or "hero", then the property read with `??` replacing only undefined. */
  function SectionIndexAsWritten(sectionId: string): (v: JsValue)
    ensures v == Number(0) || v == PropertyRead(sectionId)
    ensures !v.Undefined?
    ensures v.Inherited? <==> sectionId in ObjectPrototypeNames
    ensures v.Inherited? ==> v.name == sectionId
    ensures v.Number? ==> v.n == SectionIndex(sectionId)
  {
    if sectionId == "" || sectionId == "hero" then Number(0)
    else
      match PropertyRead(sectionId)
      case Undefined => Number(0)
      case other => other
  }

  /** The written lookup is not total over strings: every inherited name,
      "toString" among them, yields that inherited member, which is no
      nav-dot index. */
  lemma AsWrittenNotTotal(name: string)
    requires name in ObjectPrototypeNames
    ensures SectionIndexAsWritten(name) == Inherited(name)
    ensures !SectionIndexAsWritten(name).Number?
  {
  }

  /** Outside the inherited names, the written lookup and the corrected one
      agree; in particular on every id the page actually uses. */
  lemma AsWrittenAgrees(sectionId: string)
    requires sectionId !in ObjectPrototypeNames
    ensures SectionIndexAsWritten(sectionId) == Number(SectionIndex(sectionId))
  {
  }
}
