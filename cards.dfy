/** What the two blog pages share: a post as they receive it from
    GET /api/posts (every field optional), and the category colour table
    that getCategoryColor looks categories up in. */
module Cards {
  import opened Text

  /** A post as the pages read it: `_id`, `title?`, `description?`, `category?`. */
  datatype Card = Card(id: string, title: Option<string>, description: Option<string>, category: Option<string>)

  /** The fallback classes for a category the table does not know. */
  const Slate := "bg-slate-100 text-slate-700 border-slate-300"

  /** The own entries of the `colors` object literal. */
  function TableEntry(key: string): (c: Option<string>)
    ensures c.Some? <==> key in {"technology", "lifestyle", "travel", "food", "business"}
    ensures c.Some? ==> c.value != "" && c.value != Slate
  {
    if key == "technology" then Some("bg-blue-100 text-blue-700 border-blue-300")
    else if key == "lifestyle" then Some("bg-purple-100 text-purple-700 border-purple-300")
    else if key == "travel" then Some("bg-green-100 text-green-700 border-green-300")
    else if key == "food" then Some("bg-orange-100 text-orange-700 border-orange-300")
    else if key == "business" then Some("bg-gray-100 text-gray-700 border-gray-300")
    else None
  }

  /** The key `colors[category?.toLowerCase()]` reads: an absent category
      becomes the property name "undefined". */
  function ColorKey(category: Option<string>): (key: string)
    ensures category.Some? ==> |key| == |category.value| && IsLower(key)
    ensures category.Some? && key == "undefined" ==> SameIgnoringCase(category.value, "undefined")
  {
    match category
    case None => "undefined"
    case Some(c) => Lower(c)
  }

  /** Reading a property of a plain object literal: its own entry, else a
      member inherited from Object.prototype, else undefined. Of the inherited
      names only "constructor" and "__proto__" are free of upper-case letters,
      so only they can be reached through a lowercased key. */
  datatype Lookup = Own(classes: string) | Inherited(member: string) | Missing

  function PropertyRead(key: string): (l: Lookup)
    ensures l.Own? <==> TableEntry(key).Some?
    ensures l.Inherited? ==> key in {"constructor", "__proto__"}
  {
    match TableEntry(key)
    case Some(c) => Own(c)
    case None => if key == "constructor" || key == "__proto__" then Inherited(key) else Missing
  }

  /** What getCategoryColor returns as written: `colors[key] || slate`.
      An inherited member is truthy, so it is returned instead of the slate
      fallback (a function or an object where a class string is expected). */
  datatype Color = ClassName(classes: string) | PrototypeMember(member: string)

  function CategoryColorAsWritten(category: Option<string>): (c: Color)
    ensures c.PrototypeMember? <==> ColorKey(category) in {"constructor", "__proto__"}
  {
    match PropertyRead(ColorKey(category))
    case Own(classes) => ClassName(classes)
    case Inherited(member) => PrototypeMember(member)
    case Missing => ClassName(Slate)
  }

  /** The lookup as written answers a category named "Constructor" with
      Object.prototype.constructor rather than the slate fallback. */
  lemma ConstructorCategoryEscapesFallback()
    ensures CategoryColorAsWritten(Some("Constructor")) == PrototypeMember("constructor")
    ensures CategoryColorAsWritten(Some("Constructor")) != ClassName(Slate)
  {
    assert Lower("Constructor") == "constructor";
  }

  /** getCategoryColor as intended: an own-entry lookup of the lowercased
      category, with the slate classes for anything else. */
  function CategoryColor(category: Option<string>): (c: string)
    ensures c != ""
    ensures category.None? ==> c == Slate
    ensures TableEntry(ColorKey(category)).None? <==> c == Slate
    ensures TableEntry(ColorKey(category)).Some? ==> c == TableEntry(ColorKey(category)).value
  {
    match TableEntry(ColorKey(category))
    case Some(classes) => classes
    case None => Slate
  }

  /** The intended lookup ignores ASCII case. */
  lemma CategoryColorIgnoresCase(a: string, b: string)
    requires SameIgnoringCase(a, b)
    ensures CategoryColor(Some(a)) == CategoryColor(Some(b))
  {
  }

  /** The intended lookup agrees with the code as written wherever the code
      yields a class string. */
  lemma CategoryColorRefinesAsWritten(category: Option<string>)
    ensures CategoryColorAsWritten(category).ClassName? ==>
              CategoryColorAsWritten(category).classes == CategoryColor(category)
    ensures CategoryColorAsWritten(category).PrototypeMember? ==> CategoryColor(category) == Slate
  {
  }
}
