/**
 * The part of the EnergyPlus dictionary the record graph depends on: for each
 * class, its slot names, the admissible field counts and which slots are
 * references ("pointer" slots) to which class. The dictionary itself is
 * loaded elsewhere; here it is a value handed to the manager.
 */
module IdfSchema {

  /** A field value: absent, or the raw text of the field. */
  datatype Value = Empty | Str(text: string)

  /**
   * One class of the dictionary. `pointers` maps a slot position to the class
   * whose records that slot refers to by name.
   */
  datatype ClassDef = ClassDef(
    slotNames: seq<string>,
    minFields: nat,
    maxFields: nat,
    pointers: map<nat, string>)

  datatype Schema = Schema(classes: map<string, ClassDef>)

  predicate IsPointer(sc: Schema, cls: string, i: int) {
    cls in sc.classes && i >= 0 && i in sc.classes[cls].pointers
  }

  function Target(sc: Schema, cls: string, i: int): string
    requires IsPointer(sc, cls, i)
  {
    sc.classes[cls].pointers[i]
  }

  /** A record of class `cls` may hold `n` fields: its name slot and no more than the class allows. */
  predicate CountOk(sc: Schema, cls: string, n: int) {
    cls in sc.classes && 1 <= n && sc.classes[cls].minFields <= n <= sc.classes[cls].maxFields
  }

  /**
   * A class may use its name slot as a reference (ZoneHVAC:EquipmentConnections
   * names itself after the zone it serves), but then no slot of any class refers
   * to it: a rename therefore never has to cascade past one step.
   */
  ghost predicate WellFormed(sc: Schema) {
    forall d, i :: IsPointer(sc, d, i) ==> !IsPointer(sc, Target(sc, d, i), 0)
  }
}
