/**
 * PhysXColliderShape's shape flags: whether the shape takes part in the
 * simulation, in scene queries (ray casts, overlaps, sweeps), and whether it
 * is a trigger. The source keeps them as a number whose bits are the ShapeFlag
 * values 1 << 0, 1 << 1 and 1 << 2; it only ever sets and clears those bits,
 * so the model keeps the set of flags whose bit is set, and Value gives the
 * number that is handed to PhysX.
 */
module PhysXShapes {

  /** ShapeFlag. */
  datatype ShapeFlag = SimulationShape | SceneQueryShape | TriggerShape

  /** The bit of each flag: SIMULATION_SHAPE = 1 << 0, SCENE_QUERY_SHAPE = 1 << 1, TRIGGER_SHAPE = 1 << 2. */
  function Bit(flag: ShapeFlag): (b: nat)
    ensures b == 1 || b == 2 || b == 4
  {
    match flag
    case SimulationShape => 1
    case SceneQueryShape => 2
    case TriggerShape => 4
  }

  /** The flags whose bit is set. */
  type ShapeFlags = set<ShapeFlag>

  /** The number whose bits are the flags'. */
  function Value(flags: ShapeFlags): (n: nat)
    ensures n < 8
  {
    (if SimulationShape in flags then Bit(SimulationShape) else 0)
    + (if SceneQueryShape in flags then Bit(SceneQueryShape) else 0)
    + (if TriggerShape in flags then Bit(TriggerShape) else 0)
  }

  /** Different flag sets give different numbers, so the number says exactly which flags are set. */
  lemma ValueInjective(a: ShapeFlags, b: ShapeFlags)
    requires Value(a) == Value(b)
    ensures a == b
  {
    forall f ensures f in a <==> f in b {
      match f
      case SimulationShape =>
      case SceneQueryShape =>
      case TriggerShape =>
    }
  }

  /** The flags a shape starts with: SCENE_QUERY_SHAPE | SIMULATION_SHAPE. */
  const DEFAULT_FLAGS: ShapeFlags := {SceneQueryShape, SimulationShape}

  /** A new shape's flags are the number 3: it takes part in the simulation and in scene queries and is no trigger. */
  lemma DefaultFlagsAre()
    ensures Value(DEFAULT_FLAGS) == 3
    ensures SimulationShape in DEFAULT_FLAGS && SceneQueryShape in DEFAULT_FLAGS && TriggerShape !in DEFAULT_FLAGS
  {
  }

  /**
   * _modifyFlag's new flags (flags | flag, or flags & ~flag): `flag` is set
   * exactly when `value` holds; every other flag keeps its value.
   */
  function WithFlag(flags: ShapeFlags, flag: ShapeFlag, value: bool): (r: ShapeFlags)
    ensures flag in r <==> value
    ensures forall g :: g != flag ==> (g in r <==> g in flags)
  {
    if value then flags + {flag} else flags - {flag}
  }

  /** Of two _modifyFlag calls on the same flag only the last one counts. */
  lemma WithFlagLastWins(flags: ShapeFlags, flag: ShapeFlag, first: bool, second: bool)
    ensures WithFlag(WithFlag(flags, flag, first), flag, second) == WithFlag(flags, flag, second)
  {
  }

  /**
   * The set update is the number _modifyFlag computes: `flags | flag` adds
   * the flag's bit when it was clear, and `flags & ~flag` subtracts it when
   * it was set; otherwise the number is unchanged.
   */
  lemma WithFlagValue(flags: ShapeFlags, flag: ShapeFlag, value: bool)
    ensures Value(WithFlag(flags, flag, value))
         == Value(flags) + (if value && flag !in flags then Bit(flag) else 0)
                         - (if !value && flag in flags then Bit(flag) else 0)
  {
  }

  /** _modifyFlag calls on different flags can be made in either order. */
  lemma WithFlagCommute(flags: ShapeFlags, f: ShapeFlag, g: ShapeFlag, a: bool, b: bool)
    requires f != g
    ensures WithFlag(WithFlag(flags, f, a), g, b) == WithFlag(WithFlag(flags, g, b), f, a)
  {
  }

  /**
   * setIsTrigger's new flags: a trigger does not take part in the simulation,
   * a non-trigger does; the scene-query flag is untouched.
   */
  function TriggerFlags(flags: ShapeFlags, value: bool): (r: ShapeFlags)
    ensures TriggerShape in r <==> value
    ensures SimulationShape in r <==> !value
    ensures SceneQueryShape in r <==> SceneQueryShape in flags
  {
    WithFlag(WithFlag(flags, SimulationShape, !value), TriggerShape, value)
  }

  /** setIsSceneQuery's new flags: the scene-query flag follows `value`; the other two are untouched. */
  function SceneQueryFlags(flags: ShapeFlags, value: bool): (r: ShapeFlags)
    ensures SceneQueryShape in r <==> value
    ensures TriggerShape in r <==> TriggerShape in flags
    ensures SimulationShape in r <==> SimulationShape in flags
  {
    WithFlag(flags, SceneQueryShape, value)
  }

  /** Of two setIsTrigger calls only the last one counts, so repeating a value changes nothing. */
  lemma TriggerFlagsLastWins(flags: ShapeFlags, first: bool, second: bool)
    ensures TriggerFlags(TriggerFlags(flags, first), second) == TriggerFlags(flags, second)
    ensures TriggerFlags(TriggerFlags(flags, second), second) == TriggerFlags(flags, second)
  {
  }

  /** Of two setIsSceneQuery calls only the last one counts, so repeating a value changes nothing. */
  lemma SceneQueryFlagsLastWins(flags: ShapeFlags, first: bool, second: bool)
    ensures SceneQueryFlags(SceneQueryFlags(flags, first), second) == SceneQueryFlags(flags, second)
    ensures SceneQueryFlags(SceneQueryFlags(flags, second), second) == SceneQueryFlags(flags, second)
  {
  }

  /** setIsTrigger and setIsSceneQuery touch different flags, so their order does not matter. */
  lemma SettersCommute(flags: ShapeFlags, trigger: bool, query: bool)
    ensures TriggerFlags(SceneQueryFlags(flags, query), trigger) == SceneQueryFlags(TriggerFlags(flags, trigger), query)
  {
  }

  /** The part of PhysXColliderShape the managers and the flag setters use: its id and its flags. */
  class PhysXColliderShape {
    /** _id, the shape's unique id; unset until setUniqueID. */
    var id: int
    /** _shapeFlags. */
    var shapeFlags: ShapeFlags

    /** A new shape starts with the default flags. */
    constructor ()
      ensures shapeFlags == DEFAULT_FLAGS
    {
      shapeFlags := DEFAULT_FLAGS;
    }

    /** setUniqueID: stores the id (the query filter data handed to PhysX is not modelled). */
    method SetUniqueID(index: int)
      modifies this`id
      ensures id == index
    {
      id := index;
    }

    /** setIsTrigger: the simulation flag follows !value, then the trigger flag follows value. */
    method SetIsTrigger(value: bool)
      modifies this`shapeFlags
      ensures shapeFlags == TriggerFlags(old(shapeFlags), value)
    {
      ModifyFlag(SimulationShape, !value);
      ModifyFlag(TriggerShape, value);
      SetShapeFlags(shapeFlags);
    }

    /** setIsSceneQuery: the scene-query flag follows value. */
    method SetIsSceneQuery(value: bool)
      modifies this`shapeFlags
      ensures shapeFlags == SceneQueryFlags(old(shapeFlags), value)
    {
      ModifyFlag(SceneQueryShape, value);
      SetShapeFlags(shapeFlags);
    }

    /** _setShapeFlags: stores the flags (handing them to the native shape is not modelled). */
    method SetShapeFlags(flags: ShapeFlags)
      modifies this`shapeFlags
      ensures shapeFlags == flags
    {
      shapeFlags := flags;
    }

    /** _modifyFlag: sets `flag` when `value` holds, clears it otherwise. */
    method ModifyFlag(flag: ShapeFlag, value: bool)
      modifies this`shapeFlags
      ensures shapeFlags == WithFlag(old(shapeFlags), flag, value)
    {
      shapeFlags := if value then shapeFlags + {flag} else shapeFlags - {flag};
    }
  }
}
