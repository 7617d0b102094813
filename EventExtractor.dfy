/** Turning the model's reply into event records (TimelineBuilder.py:99-131): the reply is
    stripped and split into blocks at blank lines; each block that is not blank is
    searched for its event, date and category fields, and a record is kept when all
    three are present and the date parses. */
module EventExtractor {
  import opened Wrappers
  import opened PyText
  import opened BlockSplit
  import opened FieldSearch
  import opened DateInterpreter
  import opened FilterMap

  /** One entry of the result list: the dictionary with the keys 'Task', 'Date' and
      'Category'. */
  datatype EventRecord = EventRecord(task: string, date: DateTime, category: string)

  /** The dictionary `event_data` while a block is read; a key not yet set is `None`. */
  datatype EventData = EventData(task: Option<string>, date: Option<DateTime>, category: Option<string>)

  /** The date of a block: the value of its date field, parsed. */
  function BlockDate(block: string, env: DateEnv): (d: Option<DateTime>)
    ensures d.Some? ==> FieldValue(block, DateLabel).Some? && d.value.year <= env.currentYear
  {
    match FieldValue(block, DateLabel)
    case None => None
    case Some(text) => ParseDate(text, env)
  }

  /** The fields of a block: its event and category values and its parsed date. */
  function BlockFields(block: string, env: DateEnv): (f: EventData)
    ensures f.task.Some? ==> Trimmed(f.task.value)
    ensures f.category.Some? ==> Trimmed(f.category.value)
  {
    EventData(FieldValue(block, EventLabel), BlockDate(block, env), FieldValue(block, CategoryLabel))
  }

  /** The record a single block contributes, if any. */
  function BlockRecord(block: string, env: DateEnv): (r: Option<EventRecord>)
    ensures AllSpace(block) ==> r.None?
    ensures r.Some? ==> RecordFieldsClean(r.value, env)
  {
    if Strip(block) == [] then None
    else
      var f := BlockFields(block, env);
      if f.task.Some? && f.date.Some? && f.category.Some? then
        Some(EventRecord(f.task.value, f.date.value, f.category.value))
      else None
  }

  /** What every record satisfies: its task and category are single trimmed lines, and
      its date is not in the future. */
  ghost predicate RecordFieldsClean(r: EventRecord, env: DateEnv) {
    Trimmed(r.task) && Trimmed(r.category) && r.date.year <= env.currentYear
  }

  ghost predicate Trimmed(v: string) {
    '\n' !in v && (v == [] || (!IsSpace(v[0]) && !IsSpace(v[|v| - 1])))
  }

  /** The record of each block, as a function value. */
  function RecordOf(env: DateEnv): string -> Option<EventRecord> {
    (block: string) => BlockRecord(block, env)
  }

  /** The records of a list of blocks, in block order. */
  function Records(blocks: seq<string>, env: DateEnv): seq<EventRecord> {
    Kept(blocks, RecordOf(env))
  }

  /** A blank block adds nothing. */
  lemma RecordsSkip(blocks: seq<string>, i: nat, env: DateEnv)
    requires i < |blocks| && Strip(blocks[i]) == []
    ensures Records(blocks[..i + 1], env) == Records(blocks[..i], env)
  {
    KeptSnoc(blocks, RecordOf(env), i);
  }

  /** A block that is not blank adds the record of its fields when all three are set:
      the list after reading block `i` is the list of the first `i + 1` blocks. */
  lemma RecordsRead(blocks: seq<string>, i: nat, env: DateEnv, data: EventData,
                    events: seq<EventRecord>, events': seq<EventRecord>)
    requires i < |blocks| && Strip(blocks[i]) != [] && data == BlockFields(blocks[i], env)
    requires events == Records(blocks[..i], env)
    requires data.task.Some? && data.date.Some? && data.category.Some? ==>
      events' == events + [EventRecord(data.task.value, data.date.value, data.category.value)]
    requires !(data.task.Some? && data.date.Some? && data.category.Some?) ==> events' == events
    ensures events' == Records(blocks[..i + 1], env)
  {
    KeptSnoc(blocks, RecordOf(env), i);
  }

  /** The field `key` is present: the block spells the label somewhere with text after it on
      the same line or a later one. */
  ghost predicate HasField(block: string, key: string) {
    exists q :: 0 <= q <= |block| && MatchesAt(block, q, key)
  }

  /** A block yields a record exactly when it is not blank, its event and category searches
      match, and its date search matches with a value the date interpreter accepts; the
      record holds those values. */
  lemma BlockRecordFields(block: string, env: DateEnv)
    ensures BlockRecord(block, env).Some? <==>
      !AllSpace(block) && HasField(block, EventLabel) && HasField(block, CategoryLabel)
      && FieldValue(block, DateLabel).Some? && ParseDate(FieldValue(block, DateLabel).value, env).Some?
    ensures BlockRecord(block, env).Some? ==>
      var r := BlockRecord(block, env).value;
      Some(r.task) == FieldValue(block, EventLabel) && Some(r.category) == FieldValue(block, CategoryLabel)
      && Some(r.date) == ParseDate(FieldValue(block, DateLabel).value, env)
  {
    FieldMissing(block, EventLabel);
    FieldMissing(block, CategoryLabel);
  }

  /** Every record is clean: trimmed one-line task and category, and a date not in the future. */
  lemma RecordsClean(blocks: seq<string>, env: DateEnv)
    ensures forall k :: 0 <= k < |Records(blocks, env)| ==> RecordFieldsClean(Records(blocks, env)[k], env)
  {
    KeptAll(blocks, RecordOf(env), (r: EventRecord) => RecordFieldsClean(r, env));
  }

  /** A block that is not blank. */
  predicate NotBlank(block: string) {
    Strip(block) != []
  }

  /** There are no more records than blocks that are not blank. */
  lemma RecordsAtMostNonBlank(blocks: seq<string>, env: DateEnv)
    ensures |Records(blocks, env)| <= CountWhere(blocks, NotBlank)
  {
    KeptAtMost(blocks, RecordOf(env), NotBlank);
  }

  /** Records keep block order: the records of two runs of blocks are those of the first
      run followed by those of the second. */
  lemma RecordsAppend(a: seq<string>, b: seq<string>, env: DateEnv)
    ensures Records(a + b, env) == Records(a, env) + Records(b, env)
  {
    KeptAppend(a, b, RecordOf(env));
  }

  /** Every record is the record of one of the blocks. */
  lemma RecordsOrigin(blocks: seq<string>, env: DateEnv)
    ensures forall k :: 0 <= k < |Records(blocks, env)| ==>
      exists j :: 0 <= j < |blocks| && BlockRecord(blocks[j], env) == Some(Records(blocks, env)[k])
  {
    KeptOrigin(blocks, RecordOf(env));
    var events := Records(blocks, env);
    forall k | 0 <= k < |events|
      ensures exists j :: 0 <= j < |blocks| && BlockRecord(blocks[j], env) == Some(events[k])
    {
      var j :| 0 <= j < |blocks| && RecordOf(env)(blocks[j]) == Some(events[k]);
      assert BlockRecord(blocks[j], env) == Some(events[k]);
    }
  }

  /** What `fetch_events_from_openai` returns for the reply text `response`. */
  function Extract(response: string, env: DateEnv): seq<EventRecord> {
    Records(Split(Strip(response)), env)
  }

  /** A reply that, once stripped, is made of blocks without blank lines joined by runs
      of blank lines of any length, where every block holds its three fields and a date
      that parses, gives one record per block, in block order. */
  lemma ExtractJoin(response: string, blocks: seq<string>, seps: seq<string>, env: DateEnv)
    requires |blocks| >= 1 && |seps| == |blocks| - 1
    requires forall i :: 0 <= i < |seps| ==> IsSeparator(seps[i])
    requires forall i :: 0 <= i < |blocks| ==> Standalone(blocks[i])
    requires Strip(response) == Join(blocks, seps)
    requires forall i :: 0 <= i < |blocks| ==> BlockRecord(blocks[i], env).Some?
    ensures |Extract(response, env)| == |blocks|
    ensures forall i :: 0 <= i < |blocks| ==> Some(Extract(response, env)[i]) == BlockRecord(blocks[i], env)
  {
    SplitJoin(blocks, seps);
    KeptAllSome(blocks, RecordOf(env));
    assert forall i :: 0 <= i < |blocks| ==> RecordOf(env)(blocks[i]) == BlockRecord(blocks[i], env);
  }

  /** The extraction loop of TimelineBuilder.py:99-131. */
  method ExtractEvents(response: string, env: DateEnv) returns (events: seq<EventRecord>)
    ensures events == Extract(response, env)
  {
    var content := Strip(response);
    var blocks := Split(content);
    events := [];
    var i := 0;
    while i < |blocks|
      invariant 0 <= i <= |blocks|
      invariant events == Records(blocks[..i], env)
    {
      var block := blocks[i];
      if Strip(block) == [] {
        RecordsSkip(blocks, i, env);
        i := i + 1;
        continue;
      }
      var data := ReadBlock(block, env);
      var before := events;
      if data.task.Some? && data.date.Some? && data.category.Some? {
        events := events + [EventRecord(data.task.value, data.date.value, data.category.value)];
      }
      RecordsRead(blocks, i, env, data, before, events);
      i := i + 1;
    }
    assert blocks[..i] == blocks;
  }

  /** Filling `event_data` for one block (TimelineBuilder.py:109-126): each key is set
      only when its search matches, and 'Date' only when the value also parses. */
  method ReadBlock(block: string, env: DateEnv) returns (data: EventData)
    ensures data == BlockFields(block, env)
  {
    data := EventData(None, None, None);
    var eventMatch := FieldGroup(block, EventLabel);
    if eventMatch.Some? {
      data := data.(task := Some(Strip(eventMatch.value)));
    }
    var dateMatch := FieldGroup(block, DateLabel);
    if dateMatch.Some? {
      var eventDate := ParseDate(Strip(dateMatch.value), env);
      if eventDate.Some? {
        data := data.(date := eventDate);
      }
    }
    var categoryMatch := FieldGroup(block, CategoryLabel);
    if categoryMatch.Some? {
      data := data.(category := Some(Strip(categoryMatch.value)));
    }
  }
}
