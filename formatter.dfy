/** The four log-record formatters of jina/logging/formatter.py.

    The logging framework's own template substitution (`logging.Formatter.format`)
    is not part of this model: it comes in as the parameter `substitute`, a
    function of the template and the record it is given. */
module Formatter {
  import opened PyValues
  import opened CsiStrip
  import opened KeyOrder

  /** A template the framework substitutes record fields into: the formatter's
      own format string, or that string wrapped by `colored` in a style. */
  datatype Template = Plain(fmt: string) | Colored(fmt: string, style: Style)

  type Substitute = (Template, Record) -> string

  /** What a formatter returns: text, or a JSON object given by its pairs in the
      order `json.dumps` writes them. */
  datatype Output = Text(text: string) | Json(items: Items)

  // ===========================================================================
  // PlainFormatter

  const MAX_MSG_LENGTH: nat := 512

  /** The message PlainFormatter puts on its copy of a record whose message is a
      `str`: escape codes stripped first, then cut to 512 characters. */
  function PlainMessage(s: string): (m: string)
    ensures |m| <= MAX_MSG_LENGTH
    ensures m <= Strip(s)
    ensures |m| == if |Strip(s)| < MAX_MSG_LENGTH then |Strip(s)| else MAX_MSG_LENGTH
    ensures IsSubsequence(m, s)
  {
    var t := Strip(s);
    StripIsSubsequence(s);
    var m := if |t| <= MAX_MSG_LENGTH then t else t[..MAX_MSG_LENGTH];
    SubsequencePrefix(t, s, |m|);
    assert t[..|m|] == m;
    m
  }

  /** The shallow copy PlainFormatter hands to the substitution: only its `msg`
      may differ from the record, and only when that message is a `str`. Reading
      `msg` off a record without one raises AttributeError. */
  function PlainCopy(record: Record): (r: Result<Record>)
    ensures r.Ok? <==> "msg" in record
    ensures r.Err? ==> r.error == AttributeError("msg")
    ensures r.Ok? ==> r.value.Keys == record.Keys
    ensures r.Ok? ==> forall k :: k in record && k != "msg" ==> r.value[k] == record[k]
    ensures r.Ok? && record["msg"].Str? ==> r.value["msg"] == Str(PlainMessage(record["msg"].s))
    ensures r.Ok? && !record["msg"].Str? ==> r.value == record
  {
    if "msg" !in record then Err(AttributeError("msg"))
    else if record["msg"].Str? then Ok(record["msg" := Str(PlainMessage(record["msg"].s))])
    else Ok(record)
  }

  /** PlainFormatter.format: substitute the formatter's template into the copy. */
  function PlainFormat(fmt: string, record: Record, substitute: Substitute): (r: Result<string>)
    ensures r.Ok? <==> "msg" in record
    ensures r.Err? ==> r.error == AttributeError("msg")
    ensures r.Ok? ==> r.value == substitute(Plain(fmt), PlainCopy(record).value)
  {
    match PlainCopy(record)
    case Err(e) => Err(e)
    case Ok(cr) => Ok(substitute(Plain(fmt), cr))
  }

  /** A `str` message of PlainFormatter's copy is never longer than 512 characters,
      keeps the order of the original characters, and differs from the stripped
      text only by the cut. */
  lemma PlainMessageOfCopy(record: Record)
    requires "msg" in record && record["msg"].Str?
    ensures var m := PlainCopy(record).value["msg"];
            m.Str? && |m.s| <= MAX_MSG_LENGTH && IsSubsequence(m.s, record["msg"].s) &&
            m.s == Strip(record["msg"].s)[..|m.s|]
  {
  }

  /** A message without escape codes is only cut: a longer one keeps its first
      512 characters, a shorter one is kept whole. */
  lemma {:induction false} PlainMessageWithoutEscape(s: string)
    requires ESC !in s
    ensures PlainMessage(s) == if |s| <= MAX_MSG_LENGTH then s else s[..MAX_MSG_LENGTH]
  {
    NoEscapeUnchanged(s);
  }

  // ===========================================================================
  // JsonFormatter

  /** JsonFormatter.KEYS: the only attributes that reach the JSON output. */
  const JSON_KEYS: set<string> := {
    "created", "filename", "funcName", "levelname", "lineno", "msg", "module",
    "name", "pathname", "process", "thread", "processName", "threadName", "log_id"
  }

  /** The shallow copy JsonFormatter projects: its `msg`, whatever its type, is
      replaced by its text with the escape codes stripped. */
  function JsonCopy(record: Record, render: Value -> string): (r: Result<Record>)
    ensures r.Ok? <==> "msg" in record
    ensures r.Err? ==> r.error == AttributeError("msg")
    ensures r.Ok? ==> r.value.Keys == record.Keys
    ensures r.Ok? ==> r.value["msg"] == Str(Strip(TextOf(record["msg"], render)))
    ensures r.Ok? ==> forall k :: k in record && k != "msg" ==> r.value[k] == record[k]
  {
    if "msg" !in record then Err(AttributeError("msg"))
    else Ok(record["msg" := Str(Strip(TextOf(record["msg"], render)))])
  }

  /** `{k: getattr(cr, k) for k in KEYS if hasattr(cr, k)}` */
  function Project(cr: Record): (p: map<string, Value>)
    ensures p.Keys == JSON_KEYS * cr.Keys
    ensures forall k :: k in p ==> p[k] == cr[k]
  {
    map k | k in JSON_KEYS && k in cr :: cr[k]
  }

  /** JsonFormatter.format, as the pairs `json.dumps(..., sort_keys=True)` writes. */
  function JsonFormat(record: Record, render: Value -> string): (r: Result<Items>)
    ensures r.Ok? <==> "msg" in record
    ensures r.Err? ==> r.error == AttributeError("msg")
  {
    match JsonCopy(record, render)
    case Err(e) => Err(e)
    case Ok(cr) => Ok(SortedItems(Project(cr)))
  }

  /** JsonFormatter's output holds exactly the allow-listed attributes the record
      has, keys strictly ascending; `msg` is the stripped text of the message and
      every other value is the record's own. */
  lemma JsonFormatFields(record: Record, render: Value -> string)
    requires "msg" in record
    ensures var items := JsonFormat(record, render).value;
            && StrictlyAscending(items)
            && AsMap(items).Keys == JSON_KEYS * record.Keys
            && "msg" in AsMap(items)
            && AsMap(items)["msg"] == Str(Strip(TextOf(record["msg"], render)))
            && forall k :: k in AsMap(items) && k != "msg" ==> AsMap(items)[k] == record[k]
  {
  }

  /** JsonFormatter's output keys are all allow-listed, so it is never longer
      than the allow-list. */
  lemma JsonFormatBounded(record: Record, render: Value -> string)
    requires "msg" in record
    ensures var items := JsonFormat(record, render).value;
            |items| <= |JSON_KEYS| &&
            forall i :: 0 <= i < |items| ==> items[i].0 in JSON_KEYS
  {
    var items := JsonFormat(record, render).value;
    var p := Project(JsonCopy(record, render).value);
    assert p.Keys <= JSON_KEYS;
    assert |p.Keys| <= |JSON_KEYS| by {
      SubsetCardinality(p.Keys, JSON_KEYS);
    }
  }

  lemma {:induction false} SubsetCardinality(a: set<string>, b: set<string>)
    requires a <= b
    ensures |a| <= |b|
    decreases |b|
  {
    if a != {} {
      var x :| x in a;
      SubsetCardinality(a - {x}, b - {x});
    }
  }

  /** The record of the example below: three allow-listed attributes and one that is not. */
  function ExampleRecord(): Record {
    map["levelname" := Str("INFO"), "msg" := Str("hello"), "lineno" := Int(42), "args" := Other("tuple")]
  }

  lemma ExampleCopy(render: Value -> string)
    ensures JsonCopy(ExampleRecord(), render) == Ok(ExampleRecord())
  {
    NoEscapeUnchanged("hello");
    var r := ExampleRecord();
    assert Str(Strip(TextOf(r["msg"], render))) == r["msg"];
    assert r["msg" := r["msg"]] == r;
  }

  lemma ExampleProjection()
    ensures Project(ExampleRecord()) ==
            map["levelname" := Str("INFO"), "lineno" := Int(42), "msg" := Str("hello")]
  {
    var r := ExampleRecord();
    assert r.Keys == {"levelname", "msg", "lineno", "args"};
    assert "args" !in JSON_KEYS;
    assert "levelname" in JSON_KEYS && "lineno" in JSON_KEYS && "msg" in JSON_KEYS;
    assert Project(r).Keys == {"levelname", "lineno", "msg"};
  }

  lemma ExampleListing()
    ensures var expected := [("levelname", Str("INFO")), ("lineno", Int(42)), ("msg", Str("hello"))];
            StrictlyAscending(expected) &&
            AsMap(expected) == map["levelname" := Str("INFO"), "lineno" := Int(42), "msg" := Str("hello")]
  {
    var expected := [("levelname", Str("INFO")), ("lineno", Int(42)), ("msg", Str("hello"))];
    assert Below("levelname", "lineno") by {
      assert "levelname"[1..] == "evelname" && "lineno"[1..] == "ineno";
    }
    assert Below("lineno", "msg");
    BelowTransitive("levelname", "lineno", "msg");
    assert expected[1..][1..][1..] == [];
  }

  /** A record with `levelname` "INFO", `msg` "hello", `lineno` 42 and a
      non-listed attribute `args` gives exactly levelname, lineno, msg, in that order. */
  lemma JsonFormatExample(render: Value -> string)
    ensures JsonFormat(ExampleRecord(), render) ==
              Ok([("levelname", Str("INFO")), ("lineno", Int(42)), ("msg", Str("hello"))])
  {
    ExampleCopy(render);
    ExampleProjection();
    ExampleListing();
    var p := Project(ExampleRecord());
    AscendingListingUnique(SortedItems(p), [("levelname", Str("INFO")), ("lineno", Int(42)), ("msg", Str("hello"))]);
  }

  // ===========================================================================
  // ProfileFormatter

  /** The record attributes ProfileFormatter adds to a dict message, in the order
      it reads them. */
  const PROFILE_FIELDS: seq<string> := ["created", "module", "process", "thread"]

  /** The names listed in `names`. */
  function NameSet(names: seq<string>): set<string>
  {
    if |names| == 0 then {} else {names[0]} + NameSet(names[1..])
  }

  /** `{k: getattr(cr, k) for k in names}`: the attributes in `names`, or the
      AttributeError of the first one the record lacks. */
  function Attributes(record: Record, names: seq<string>): (r: Result<map<string, Value>>)
    ensures r.Ok? <==> forall i :: 0 <= i < |names| ==> names[i] in record
    ensures r.Ok? ==> r.value.Keys == NameSet(names)
    ensures r.Ok? ==> forall k :: k in r.value ==> k in record && r.value[k] == record[k]
    ensures r.Err? ==> exists i :: 0 <= i < |names| && names[i] !in record &&
                                   r.error == AttributeError(names[i]) &&
                                   forall j :: 0 <= j < i ==> names[j] in record
  {
    if |names| == 0 then Ok(map[])
    else if names[0] !in record then Err(AttributeError(names[0]))
    else
      match Attributes(record, names[1..])
      case Err(e) =>
        var i :| 0 <= i < |names[1..]| && names[1..][i] !in record &&
                 e == AttributeError(names[1..][i]) &&
                 forall j :: 0 <= j < i ==> names[1..][j] in record;
        assert names[i + 1] == names[1..][i];
        assert forall j :: 1 <= j < i + 1 ==> names[j] == names[1..][j - 1];
        Err(e)
      case Ok(m) =>
        assert forall i :: 1 <= i < |names| ==> names[i] == names[1..][i - 1];
        Ok(m[names[0] := record[names[0]]])
  }

  /** The dict after `msg.update(fields)` and `msg['memory'] = memory`. */
  function Merged(items: map<string, Value>, fields: map<string, Value>, memory: Value): (r: map<string, Value>)
    ensures r.Keys == items.Keys + fields.Keys + {"memory"}
    ensures r["memory"] == memory
    ensures forall k :: k in fields && k != "memory" ==> r[k] == fields[k]
    ensures forall k :: k in items && k !in fields && k != "memory" ==> r[k] == items[k]
  {
    (items + fields)["memory" := memory]
  }

  /** The dict ProfileFormatter would serialise and leave behind, or its error:
      it fails exactly when the record lacks one of the four attributes, and
      then names a missing one. */
  function ProfileResult(items: map<string, Value>, record: Record, memory: Value): (r: Result<map<string, Value>>)
    ensures r.Ok? <==> "created" in record && "module" in record && "process" in record && "thread" in record
    ensures r.Err? ==> r.error.name in {"created", "module", "process", "thread"} && r.error.name !in record
  {
    assert PROFILE_FIELDS[0] == "created" && PROFILE_FIELDS[1] == "module";
    assert PROFILE_FIELDS[2] == "process" && PROFILE_FIELDS[3] == "thread";
    match Attributes(record, PROFILE_FIELDS)
    case Err(e) => Err(e)
    case Ok(fields) => Ok(Merged(items, fields, memory))
  }

  /** When the record has the four attributes, the merged dict keeps every
      original key, adds created, module, process, thread and memory, and the
      record's values (and the memory reading) win on a clash. */
  lemma ProfileMerge(items: map<string, Value>, record: Record, memory: Value)
    requires "created" in record && "module" in record && "process" in record && "thread" in record
    ensures var r := ProfileResult(items, record, memory);
            && r.Ok?
            && r.value.Keys == items.Keys + {"created", "module", "process", "thread", "memory"}
            && r.value["memory"] == memory
            && r.value["created"] == record["created"] && r.value["module"] == record["module"]
            && r.value["process"] == record["process"] && r.value["thread"] == record["thread"]
            && forall k :: k in items && k !in {"created", "module", "process", "thread", "memory"} ==>
                             r.value[k] == items[k]
  {
    ProfileFieldNames();
    assert forall i :: 0 <= i < |PROFILE_FIELDS| ==> PROFILE_FIELDS[i] in record;
    var fields := Attributes(record, PROFILE_FIELDS).value;
    assert fields.Keys == {"created", "module", "process", "thread"};
    assert ProfileResult(items, record, memory) == Ok(Merged(items, fields, memory));
  }

  lemma ProfileFieldNames()
    ensures NameSet(PROFILE_FIELDS) == {"created", "module", "process", "thread"}
  {
    assert PROFILE_FIELDS[1..] == ["module", "process", "thread"];
    assert PROFILE_FIELDS[1..][1..] == ["process", "thread"];
    assert PROFILE_FIELDS[1..][1..][1..] == ["thread"];
    assert PROFILE_FIELDS[1..][1..][1..][1..] == [];
  }

  /** ProfileFormatter.format. The shallow copy shares the message dict with the
      caller's record, so a dict message is updated in place: the caller sees the
      added keys afterwards. A message that is not a dict gives the empty string
      and changes nothing. */
  method ProfileFormat(record: Record, memory: Value) returns (out: Result<Output>)
    modifies if "msg" in record && record["msg"].Dict? then {record["msg"].d} else {}
    ensures "msg" !in record ==> out == Err(AttributeError("msg"))
    ensures "msg" in record && !record["msg"].Dict? ==> out == Ok(Text(""))
    ensures "msg" in record && record["msg"].Dict? ==>
              var d := record["msg"].d;
              match ProfileResult(old(d.items), record, memory)
              case Err(e) => out == Err(e) && d.items == old(d.items)
              case Ok(merged) => d.items == merged && out == Ok(Json(SortedItems(merged)))
  {
    if "msg" !in record {
      out := Err(AttributeError("msg"));
    } else if record["msg"].Dict? {
      var d := record["msg"].d;
      match Attributes(record, PROFILE_FIELDS)
      case Err(e) =>
        out := Err(e);
      case Ok(fields) =>
        d.items := d.items + fields;
        d.items := d.items["memory" := memory];
        out := Ok(Json(SortedItems(d.items)));
    } else {
      out := Ok(Text(""));
    }
  }

  // ===========================================================================
  // ColorFormatter

  /** The LogVerbosity levels; `Custom` is any other `levelno`. The numeric values
      of the six are not part of this model. */
  datatype Level = Debug | Info | Success | Warning | Error | Critical | Custom(levelno: int)

  datatype Color = Black | Green | Yellow | Red
  datatype Attr = Bold

  /** The keyword arguments ColorFormatter passes to `colored`. */
  datatype Style = Style(color: Option<Color>, attrs: seq<Attr>)

  /** ColorFormatter.MAPPING */
  const MAPPING: map<Level, Style> := map[
    Debug := Style(Some(Black), [Bold]),
    Info := Style(None, []),
    Success := Style(Some(Green), []),
    Warning := Style(Some(Yellow), []),
    Error := Style(Some(Red), []),
    Critical := Style(Some(Red), [Bold])
  ]

  /** The format string `logging.Formatter` uses when given none. */
  const DEFAULT_FORMAT: string := "%(message)s"

  /** The table ColorFormatter's constructor builds: one template per MAPPING
      entry, the whole format string wrapped in that level's style. */
  function Compile(fmt: string): (table: map<Level, Template>)
    ensures table.Keys == MAPPING.Keys
    ensures forall l :: l in table ==> table[l] == Colored(fmt, MAPPING[l])
  {
    map l | l in MAPPING :: Colored(fmt, MAPPING[l])
  }

  /** The compiled table has exactly six entries, one per LogVerbosity level, and
      INFO's template carries no style. */
  lemma CompileSixLevels(fmt: string)
    ensures Compile(fmt).Keys == {Debug, Info, Success, Warning, Error, Critical}
    ensures |Compile(fmt)| == 6
    ensures Compile(fmt)[Info] == Colored(fmt, Style(None, []))
    ensures forall n :: Custom(n) !in Compile(fmt)
  {
    MappingLevels();
  }

  lemma MappingLevels()
    ensures MAPPING.Keys == {Debug, Info, Success, Warning, Error, Critical}
    ensures |MAPPING| == 6
  {
    assert |MAPPING.Keys| == 6;
  }

  class ColorFormatter {
    const fmt: string
    var formatters: map<Level, Template>

    ghost predicate Valid()
      reads this
    {
      formatters == Compile(fmt)
    }

    /** `fmt` is "" where the caller passed none (logging then uses its default). */
    constructor (fmt: string)
      ensures this.fmt == if fmt == "" then DEFAULT_FORMAT else fmt
      ensures Valid()
    {
      var f := if fmt == "" then DEFAULT_FORMAT else fmt;
      this.fmt := f;
      formatters := map l | l in MAPPING :: Colored(f, MAPPING[l]);
    }

    /** ColorFormatter.format: substitute the record into its level's template.
        For a level outside the table `.get` gives None, and calling `format` on
        None raises AttributeError. */
    method Format(level: Level, record: Record, substitute: Substitute) returns (r: Result<string>)
      requires Valid()
      ensures r.Ok? <==> !level.Custom?
      ensures r.Ok? ==> r.value == substitute(Colored(fmt, MAPPING[level]), record)
      ensures r.Err? ==> r.error == AttributeError("format")
    {
      if level in formatters {
        r := Ok(substitute(formatters[level], record));
      } else {
        r := Err(AttributeError("format"));
      }
    }
  }
}
