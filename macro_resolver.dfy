/** The BDSKMacroResolver protocol, as one object holding its table of
    macro definitions. */
module MacroResolvers {
  import opened StringNodes
  import opened ComplexStrings

  /** The table with the definition under `oldKey` moved to `newKey`; the
      table itself when `oldKey` is not defined. */
  function Renamed(m: MacroTable, oldKey: string, newKey: string): (renamed: MacroTable) {
    if oldKey in m then (m - {oldKey})[newKey := m[oldKey]] else m
  }

  /** After a rename the new key holds the old key's definition, the old key
      is gone unless it is the new one, and every other key is untouched. */
  lemma RenamedLookup(m: MacroTable, oldKey: string, newKey: string, k: string)
    ensures oldKey in m ==> newKey in Renamed(m, oldKey, newKey) && Renamed(m, oldKey, newKey)[newKey] == m[oldKey]
    ensures oldKey in m && oldKey != newKey ==> oldKey !in Renamed(m, oldKey, newKey)
    ensures k != oldKey && k != newKey ==> (k in Renamed(m, oldKey, newKey) <==> k in m)
    ensures k != oldKey && k != newKey && k in m ==> Renamed(m, oldKey, newKey)[k] == m[k]
    ensures oldKey !in m ==> Renamed(m, oldKey, newKey) == m
    ensures Renamed(m, oldKey, oldKey) == m
  {
    if oldKey in m {
      assert (m - {oldKey})[oldKey := m[oldKey]] == m;
    }
  }

  /** Renaming a key and renaming it back restores the table, as long as the
      new key was not defined before. */
  lemma RenameBack(m: MacroTable, oldKey: string, newKey: string)
    requires newKey !in m
    ensures Renamed(Renamed(m, oldKey, newKey), newKey, oldKey) == m
  {
    if oldKey in m && oldKey != newKey {
      var r := Renamed(m, oldKey, newKey);
      assert newKey in r;
      assert (r - {newKey})[oldKey := r[newKey]] == m;
    }
  }

  /** An object implementing BDSKMacroResolver. */
  class MacroResolver {
    var definitions: MacroTable

    /** A resolver that defines nothing. */
    constructor ()
      ensures definitions == map[]
    {
      definitions := map[];
    }

    /** macroDefinitions */
    function MacroDefinitions(): (defs: MacroTable)
      reads this
    {
      definitions
    }

    /** setMacroDefinitions: replaces the whole table. */
    method SetMacroDefinitions(newMacroDefinitions: MacroTable)
      modifies this
      ensures definitions == newMacroDefinitions
    {
      definitions := newMacroDefinitions;
    }

    /** addMacroDefinition:forMacro: defines `macroKey`, replacing any
        definition it had. */
    method AddMacroDefinition(macroString: BibString, macroKey: string)
      modifies this
      ensures definitions == old(definitions)[macroKey := macroString]
    {
      definitions := definitions[macroKey := macroString];
    }

    /** valueOfMacro: the definition of `macro`, if there is one. */
    method ValueOfMacro(macro: string) returns (value: Option<BibString>)
      ensures value.Some? <==> macro in definitions
      ensures value.Some? ==> value.value == definitions[macro]
    {
      if macro in definitions {
        value := Some(definitions[macro]);
      } else {
        value := None;
      }
    }

    /** removeMacro: forgets the definition of `macroKey`, if any. */
    method RemoveMacro(macroKey: string)
      modifies this
      ensures definitions == old(definitions) - {macroKey}
    {
      definitions := definitions - {macroKey};
    }

    /** changeMacroKey:to: moves a definition to another key. */
    method ChangeMacroKey(oldKey: string, newKey: string)
      modifies this
      ensures definitions == Renamed(old(definitions), oldKey, newKey)
    {
      if oldKey in definitions {
        var d := definitions[oldKey];
        definitions := (definitions - {oldKey})[newKey := d];
      }
    }

    /** setMacroDefinition:forMacro: sets the definition of `macroKey`. */
    method SetMacroDefinition(newDefinition: BibString, macroKey: string)
      modifies this
      ensures definitions == old(definitions)[macroKey := newDefinition]
    {
      definitions := definitions[macroKey := newDefinition];
    }
  }
}
