/** The linked registry of models (internal/model/types.go, registry.go, linker.go). */
module Schema {
  import opened Common

  /** A dot-free name, and a dotted path as the sequence of its names; [] is the empty path. */
  type Name = s: string | '.' !in s witness ""
  type Path = seq<Name>

  datatype Kind = HasOne | HasMany | BelongsTo | OtherKind

  /** `cond` and `throughCond` are the texts of `where` and `through_where`. */
  datatype Relation = Relation(kind: Kind, model: Name, fk: string, pk: string, through: Option<Name>,
                               cond: string, throughCond: string, reentrant: bool, maxDepth: int, polymorphic: bool)

  /** A preset field; `isPreset` is type == "preset". */
  datatype Field = Field(source: Name, isPreset: bool, nestedPreset: string, maxDepth: int)

  datatype Model = Model(table: string, relations: map<Name, Relation>, aliases: map<Name, Path>,
                         presets: map<Name, seq<Field>>)

  type Registry = map<Name, Model>

  const DEFAULT_REENTRANT_MAX_DEPTH := 3

  /** resolveMaxDepth, internal/model/max_depth.go */
  function EffectiveMaxDepth(fieldMax: int, relMax: int): (eff: int)
    ensures eff >= 1
  {
    if fieldMax > 0 then fieldMax else if relMax > 0 then relMax else DEFAULT_REENTRANT_MAX_DEPTH
  }

  /** The model a relation was linked to; polymorphic relations are never linked. */
  function ModelRef(reg: Registry, rel: Relation): (r: Option<Name>)
    ensures r.Some? ==> r.value in reg
  {
    if !rel.polymorphic && rel.model in reg then Some(rel.model) else None
  }

  /** What LinkModelRelations checks before any request is served. */
  ghost predicate Linked(reg: Registry) {
    forall m <- reg, r <- reg[m].relations :: LinkedRelation(reg, reg[m].relations[r])
  }

  ghost predicate LinkedRelation(reg: Registry, rel: Relation) {
    && rel.kind != OtherKind
    && (rel.polymorphic ==> rel.kind == BelongsTo && rel.through.None?)
    && (!rel.polymorphic ==> rel.model in reg)
    && (rel.through.Some? ==> HasRelationTo(reg, rel.through.value, rel.model))
  }

  ghost predicate HasRelationTo(reg: Registry, m: Name, target: Name) {
    m in reg && exists f <- reg[m].relations :: reg[m].relations[f].model == target
  }
}
