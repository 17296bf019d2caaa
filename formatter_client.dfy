/** A caller of the formatters, showing what it can rely on from their contracts alone. */
module FormatterClient {
  import opened PyValues
  import opened Formatter

  function CallerRecord(caller: PyDict, created: Value): Record {
    map["msg" := Dict(caller), "created" := created, "module" := Str("m"),
        "process" := Int(1), "thread" := Int(2)]
  }

  lemma CallerMerge(caller: PyDict, created: Value, memory: Value)
    ensures var r := ProfileResult(map["event" := Str("x")], CallerRecord(caller, created), memory);
            && r.Ok?
            && r.value.Keys == {"event", "created", "module", "process", "thread", "memory"}
            && r.value["event"] == Str("x") && r.value["memory"] == memory
            && r.value["created"] == created
  {
    var record := CallerRecord(caller, created);
    ProfileMerge(map["event" := Str("x")], record, memory);
  }

  /** A caller's dict message, formatted through a record that points to it,
      afterwards holds the profile keys: the update happens through the copy. */
  method ProfileUpdatesCallerDict(created: Value, memory: Value) returns (caller: PyDict)
    ensures caller.items.Keys == {"event", "created", "module", "process", "thread", "memory"}
    ensures caller.items["event"] == Str("x") && caller.items["memory"] == memory
    ensures caller.items["created"] == created
  {
    caller := new PyDict(map["event" := Str("x")]);
    var record := CallerRecord(caller, created);
    CallerMerge(caller, created, memory);
    var out := ProfileFormat(record, memory);
  }
}
