/** Versioned records, their dictionary form, and the newest-to-oldest
    visibility scan that every isolation level but READ_UNCOMMITTED uses. */
module Versions {
  import opened Base

  /** The four isolation levels a read may ask for. */
  datatype IsolationLevel = ReadUncommitted | ReadCommitted | RepeatableRead | Serializable

  /** One version of one key: its payload (None for a tombstone or a written
      None), its version number, and the committed and deleted flags. */
  datatype VersionedData = VersionedData(value: Option<Value>, version: int, committed: bool, deleted: bool)

  /** The same record with its committed flag set, as commit leaves it. */
  function Committed(d: VersionedData): (r: VersionedData)
    ensures r.committed
    ensures r.value == d.value && r.version == d.version && r.deleted == d.deleted
  {
    d.(committed := true)
  }

  // ---------------------------------------------------------------------------
  // to_dict / from_dict

  /** A field of the dictionary form: the payload, the version, or a flag. */
  datatype Field = Payload(payload: Option<Value>) | Number(n: int) | Flag(b: bool)

  /** The keyword arguments the record's constructor accepts. */
  const FieldNames: set<string> := {"value", "version", "committed", "deleted"}

  /** `to_dict`: every field under its own name. */
  function ToDict(d: VersionedData): (m: map<string, Field>)
    ensures m.Keys == FieldNames
    ensures m["value"] == Payload(d.value) && m["version"] == Number(d.version)
    ensures m["committed"] == Flag(d.committed) && m["deleted"] == Flag(d.deleted)
  {
    map["value" := Payload(d.value), "version" := Number(d.version),
        "committed" := Flag(d.committed), "deleted" := Flag(d.deleted)]
  }

  /** A flag argument of `from_dict`, falling back to the constructor's default False. */
  function FlagOr(m: map<string, Field>, name: string): Option<bool>
  {
    if name !in m then Some(false)
    else if m[name].Flag? then Some(m[name].b)
    else None
  }

  /** The dictionaries `cls(**data)` accepts: no unknown key, `value` and
      `version` present, and each field of the kind the record holds. */
  predicate WellFormedDict(m: map<string, Field>)
  {
    && m.Keys <= FieldNames
    && "value" in m && m["value"].Payload?
    && "version" in m && m["version"].Number?
    && ("committed" in m ==> m["committed"].Flag?)
    && ("deleted" in m ==> m["deleted"].Flag?)
  }

  /** `from_dict`, i.e. `cls(**data)`: an unknown key or a missing `value` or
      `version` raises TypeError; `committed` and `deleted` default to False. */
  function FromDict(m: map<string, Field>): (r: Result<VersionedData, PyError>)
    ensures r.Ok? <==> WellFormedDict(m)
    ensures r.Ok? ==> m["value"] == Payload(r.value.value) && m["version"] == Number(r.value.version)
    ensures r.Ok? && "committed" in m ==> m["committed"] == Flag(r.value.committed)
    ensures r.Ok? && "committed" !in m ==> !r.value.committed
    ensures r.Ok? && "deleted" in m ==> m["deleted"] == Flag(r.value.deleted)
    ensures r.Ok? && "deleted" !in m ==> !r.value.deleted
    ensures r.Err? ==> r.error == TypeError
  {
    if !(m.Keys <= FieldNames) || "value" !in m || "version" !in m then Err(TypeError)
    else if !m["value"].Payload? || !m["version"].Number? then Err(TypeError)
    else
      match (FlagOr(m, "committed"), FlagOr(m, "deleted"))
      case (Some(c), Some(del)) => Ok(VersionedData(m["value"].payload, m["version"].n, c, del))
      case _ => Err(TypeError)
  }

  /** Reading back what `to_dict` wrote gives the same record. */
  lemma FromDictToDict(d: VersionedData)
    ensures FromDict(ToDict(d)) == Ok(d)
  {
  }

  /** A dictionary that `from_dict` accepts and that names every field is
      exactly the `to_dict` of the record it builds. */
  lemma ToDictFromDict(m: map<string, Field>)
    requires m.Keys == FieldNames
    requires FromDict(m).Ok?
    ensures ToDict(FromDict(m).value) == m
  {
  }

  // ---------------------------------------------------------------------------
  // Visibility

  /** An entry a snapshot bounded by `bound` may see: committed, not newer
      than the bound, and not a tombstone. */
  predicate Qualifies(d: VersionedData, bound: int)
  {
    d.committed && d.version <= bound && !d.deleted
  }

  /** `i` is the newest (highest-position) qualifying entry of `chain`. */
  predicate IsNewestQualifying(chain: seq<VersionedData>, bound: int, i: int)
  {
    0 <= i < |chain| && Qualifies(chain[i], bound)
    && forall j :: i < j < |chain| ==> !Qualifies(chain[j], bound)
  }

  /** No entry of `chain` qualifies. */
  predicate NoneQualifies(chain: seq<VersionedData>, bound: int)
  {
    forall j :: 0 <= j < |chain| ==> !Qualifies(chain[j], bound)
  }

  /** The position a newest-to-oldest scan stops at, if any. */
  function NewestQualifying(chain: seq<VersionedData>, bound: int): (r: Option<nat>)
    ensures r.Some? ==> IsNewestQualifying(chain, bound, r.value)
    ensures r.None? ==> NoneQualifies(chain, bound)
  {
    if |chain| == 0 then None
    else if Qualifies(chain[|chain| - 1], bound) then Some(|chain| - 1)
    else NewestQualifying(chain[..|chain| - 1], bound)
  }

  /** The scan's answer is determined by the chain: whichever position is the
      newest qualifying one is the one it returns. */
  lemma NewestQualifyingUnique(chain: seq<VersionedData>, bound: int, i: int)
    requires IsNewestQualifying(chain, bound, i)
    ensures NewestQualifying(chain, bound) == Some(i)
  {
  }

  /** The `for version in reversed(versions)` loop: walk from the newest entry
      towards the oldest and stop at the first that qualifies. */
  method ScanNewest(chain: seq<VersionedData>, bound: int) returns (r: Option<nat>)
    ensures r == NewestQualifying(chain, bound)
  {
    var i := |chain|;
    while i > 0
      invariant 0 <= i <= |chain|
      invariant NewestQualifying(chain, bound) == NewestQualifying(chain[..i], bound)
    {
      assert chain[..i][..i - 1] == chain[..i - 1];
      if Qualifies(chain[i - 1], bound) {
        return Some(i - 1);
      }
      i := i - 1;
    }
    return None;
  }

  /** Appending an entry the bound does not admit (a tombstone, an
      uncommitted entry, or one newer than the bound) leaves the scan's
      answer where it was. */
  lemma AppendHiddenEntry(chain: seq<VersionedData>, d: VersionedData, bound: int)
    requires !Qualifies(d, bound)
    ensures NewestQualifying(chain + [d], bound) == NewestQualifying(chain, bound)
  {
    assert (chain + [d])[..|chain|] == chain;
  }

  // ---------------------------------------------------------------------------
  // Python slicing

  function Min(a: int, b: int): int { if a <= b then a else b }
  function Max(a: int, b: int): int { if a <= b then b else a }

  /** Python's `s[-m:]`: the start index `-m` is counted from the end when
      negative and clamped to the sequence either way. */
  function SliceFromEnd<T>(s: seq<T>, m: int): (r: seq<T>)
    ensures |r| <= |s| && r == s[|s| - |r|..]
    ensures m > 0 ==> |r| == Min(m, |s|)
    ensures m == 0 ==> r == s
    ensures m < 0 ==> |r| == Max(|s| + m, 0)
  {
    var start := -m;
    var lo := if start < 0 then Max(|s| + start, 0) else Min(start, |s|);
    s[lo..]
  }
}
