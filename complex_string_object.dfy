/** BDSKComplexString as an object: its value, which never changes, and the
    resolver it expands its macros with, which can be replaced. With the
    resolver, the only state in this model. */
module ComplexStringObjects {
  import opened StringNodes
  import opened ComplexStrings
  import opened MacroResolvers

  /** A BDSKComplexString object: its value (nodes and flags), which never
      changes, and the resolver it expands its macros with, which can. */
  class ComplexStringObject {
    const value: BibString
    var macroResolver: MacroResolver?

    /** initWithArray:macroResolver:, the designated initializer. */
    constructor (a: seq<Node>, theMacroResolver: MacroResolver?)
      ensures value == ComplexStringWithArray(a)
      ensures macroResolver == theMacroResolver
    {
      value := ComplexStringWithArray(a);
      macroResolver := theMacroResolver;
    }

    /** initWithInheritedValue:: the value of `aValue`, marked inherited,
        resolving its macros as `aValue` does. */
    constructor InheritedValue(aValue: ComplexStringObject)
      ensures value == StringWithInheritedValue(aValue.value)
      ensures macroResolver == aValue.macroResolver
    {
      value := StringWithInheritedValue(aValue.value);
      macroResolver := aValue.macroResolver;
    }

    /** The table macros are expanded with: none without a resolver. */
    function Definitions(): (defs: MacroTable)
      reads this, macroResolver
    {
      if macroResolver == null then map[] else macroResolver.definitions
    }

    /** The expanded value, which the object stands for as an NSString. */
    function ExpandedValue(): (v: string)
      reads this, macroResolver
    {
      ComplexStrings.ExpandedValue(value, Definitions())
    }

    /** setMacroResolver: changes only the resolver, so the nodes and flags
        stay and the expanded value follows the new resolver's table. */
    method SetMacroResolver(newMacroResolver: MacroResolver?)
      modifies this
      ensures macroResolver == newMacroResolver
      ensures ExpandedValue() == ComplexStrings.ExpandedValue(value,
        if newMacroResolver == null then map[] else newMacroResolver.definitions)
    {
      macroResolver := newMacroResolver;
    }
  }
}
