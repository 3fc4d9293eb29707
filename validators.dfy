/**
 * Blueprint validation: which of the four layouts a parsed YAML stream uses,
 * and the defects of its prompt items. An empty defect list means valid.
 */
module Validators {
  import opened Text
  import opened Seqs
  import opened Values

  /** The result of parsing a YAML stream: the parser's error message, or its top-level blocks. */
  datatype Parsed = ParseError(detail: string) | Blocks(blocks: seq<Value>)

  datatype Defect =
    | InvalidYaml(detail: string)
    | EmptyFile
    | PromptsKeyNotList
    | NoPromptList
    | InvalidStructure
    | NoContent
    | NotAnObject(index: nat)
    | MissingContent(name: string)
    | RubricNotList(key: string, name: string)

  /** The text each defect is reported as. */
  function Message(d: Defect): string {
    match d
    case InvalidYaml(detail) => "Invalid YAML: " + detail
    case EmptyFile => "YAML file is empty."
    case PromptsKeyNotList => "The 'prompts' key must contain a list of prompts."
    case NoPromptList => "Could not identify a valid list of prompts."
    case InvalidStructure => "Invalid YAML structure."
    case NoContent => "Blueprint must contain at least one prompt or config header."
    case NotAnObject(i) => "Prompt at index " + NatToString(i) + " is not a valid object."
    case MissingContent(name) => "Prompt '" + name + "' must contain 'prompt' or 'messages'."
    case RubricNotList(key, name) => "Rubric '" + key + "' in prompt '" + name + "' must be a list."
  }

  function Messages(ds: seq<Defect>): (r: seq<string>)
    ensures |r| == |ds|
  {
    if ds == [] then [] else Messages(ds[..|ds| - 1]) + [Message(ds[|ds| - 1])]
  }

  lemma MessagesSnoc(ds: seq<Defect>, d: Defect)
    ensures Messages(ds + [d]) == Messages(ds) + [Message(d)]
  {
    assert (ds + [d])[..|ds|] == ds;
  }

  // ---------------------------------------------------------------------------
  // Layout detection

  /** Keys that mark the first block of a stream as a configuration header. */
  const HeaderKeys: seq<string> :=
    ["id", "title", "models", "system", "concurrency", "temperatures", "evaluationConfig"]

  /** Keys that mark a block as a prompt item. */
  const PromptKeys: seq<string> := ["prompt", "messages", "should", "ideal"]

  /** The rubric keys whose value must be a list, in the order they are checked. */
  const RubricKeys: seq<string> := ["should", "should_not", "points", "expect", "expects", "expectations"]

  predicate HasAnyKey(fields: map<string, Value>, keys: seq<string>) {
    exists i :: 0 <= i < |keys| && keys[i] in fields
  }

  /** The first block of an all-mapping stream is a header iff it has a header key and no prompt key. */
  predicate IsHeaderBlock(fields: map<string, Value>) {
    HasAnyKey(fields, HeaderKeys) && !HasAnyKey(fields, PromptKeys)
  }

  predicate AllDicts(docs: seq<Value>) {
    forall i :: 0 <= i < |docs| ==> docs[i].Dict?
  }

  /**
   * The header, the would-be prompt list and the defects already found while
   * detecting the layout; or no recognised layout at all.
   */
  datatype Layout =
    | Unrecognized
    | Detected(header: map<string, Value>, prompts: Value, notes: seq<Defect>)

  /** Picks the layout of the non-empty blocks, trying the four layouts in turn. */
  function Detect(docs: seq<Value>): Layout
    requires docs != []
  {
    var first := docs[0];
    if |docs| > 1 && first.Dict? && docs[1].List? then
      Detected(first.fields, docs[1], [])
    else if |docs| == 1 && first.Dict? && "prompts" in first.fields then
      var p := first.fields["prompts"];
      Detected(first.fields, p, if p.List? then [] else [PromptsKeyNotList])
    else if |docs| == 1 && first.List? then
      Detected(map[], first, [])
    else if AllDicts(docs) then
      if IsHeaderBlock(first.fields) then Detected(first.fields, List(docs[1..]), [])
      else Detected(map[], List(docs), [])
    else
      Unrecognized
  }

  // ---------------------------------------------------------------------------
  // Item checks

  /** An item carries content: a string `prompt` or `promptText`, or a list of `messages`. */
  predicate HasContent(fields: map<string, Value>) {
    ("prompt" in fields && fields["prompt"].Str?) ||
    ("promptText" in fields && fields["promptText"].Str?) ||
    ("messages" in fields && fields["messages"].List?)
  }

  /** How defects name an item: its `id` as text, or "index-i" when it has none. */
  function ItemLabel(fields: map<string, Value>, i: nat): string {
    if "id" in fields then Display(fields["id"]) else "index-" + NatToString(i)
  }

  /** One defect per key of `keys` that is present with a value that is not a list, in key order. */
  function RubricDefects(fields: map<string, Value>, name: string, keys: seq<string>): seq<Defect> {
    if keys == [] then []
    else
      var k := keys[|keys| - 1];
      RubricDefects(fields, name, keys[..|keys| - 1]) +
      (if k in fields && !fields[k].List? then [RubricNotList(k, name)] else [])
  }

  function ContentDefects(fields: map<string, Value>, name: string): seq<Defect> {
    if HasContent(fields) then [] else [MissingContent(name)]
  }

  /** The defects of the item at position `i`. */
  function ItemDefects(item: Value, i: nat): seq<Defect> {
    if !item.Dict? then [NotAnObject(i)]
    else
      var name := ItemLabel(item.fields, i);
      ContentDefects(item.fields, name) + RubricDefects(item.fields, name, RubricKeys)
  }

  /** The defects of all items, item by item in order. */
  function AllItemDefects(items: seq<Value>): seq<Defect> {
    if items == [] then []
    else AllItemDefects(items[..|items| - 1]) + ItemDefects(items[|items| - 1], |items| - 1)
  }

  function PromptDefects(header: map<string, Value>, prompts: Value): seq<Defect> {
    if !prompts.List? then [NoPromptList]
    else if prompts.items == [] && header == map[] then [NoContent]
    else AllItemDefects(prompts.items)
  }

  /** The defects `validate_blueprint_yaml` reports, in the order it reports them. */
  function Validate(parsed: Parsed): seq<Defect> {
    match parsed
    case ParseError(detail) => [InvalidYaml(detail)]
    case Blocks(blocks) =>
      var docs := Filter(blocks, Truthy);
      if docs == [] then [EmptyFile]
      else
        match Detect(docs)
        case Unrecognized => [InvalidStructure]
        case Detected(header, prompts, notes) => notes + PromptDefects(header, prompts)
  }

  // ---------------------------------------------------------------------------
  // The validator as written: a loop over the items and, inside it, over the rubric keys

  method ValidateBlueprintYaml(parsed: Parsed) returns (errors: seq<string>)
    ensures errors == Messages(Validate(parsed))
  {
    if parsed.ParseError? {
      return [Message(InvalidYaml(parsed.detail))];
    }
    var docs := Filter(parsed.blocks, Truthy);
    if docs == [] {
      return [Message(EmptyFile)];
    }
    var layout := Detect(docs);
    if layout.Unrecognized? {
      return [Message(InvalidStructure)];
    }
    var promptErrors := CheckPrompts(layout.header, layout.prompts);
    MessagesAppend(layout.notes, PromptDefects(layout.header, layout.prompts));
    errors := Messages(layout.notes) + promptErrors;
  }

  /** The checks on the prompt list: it must be a list, and then each item is checked in order. */
  method CheckPrompts(header: map<string, Value>, prompts: Value) returns (errors: seq<string>)
    ensures errors == Messages(PromptDefects(header, prompts))
  {
    if !prompts.List? {
      return [Message(NoPromptList)];
    }
    var items := prompts.items;
    if items == [] && header == map[] {
      return [Message(NoContent)];
    }
    errors := [];
    ghost var found: seq<Defect> := [];
    var i := 0;
    while i < |items|
      invariant 0 <= i <= |items|
      invariant found == AllItemDefects(items[..i])
      invariant errors == Messages(found)
    {
      var itemErrors := CheckItem(items[i], i);
      AllItemDefectsStep(items, i);
      MessagesAppend(found, ItemDefects(items[i], i));
      errors := errors + itemErrors;
      found := found + ItemDefects(items[i], i);
      i := i + 1;
    }
    assert items[..i] == items;
  }

  lemma AllItemDefectsStep(items: seq<Value>, i: nat)
    requires i < |items|
    ensures AllItemDefects(items[..i + 1]) == AllItemDefects(items[..i]) + ItemDefects(items[i], i)
  {
    assert items[..i + 1][..i] == items[..i];
  }

  /** The checks on one item: its content, then each rubric key in turn. */
  lemma RubricDefectsStep(fields: map<string, Value>, name: string, keys: seq<string>, k: nat)
    requires k < |keys|
    ensures RubricDefects(fields, name, keys[..k + 1]) ==
      RubricDefects(fields, name, keys[..k]) +
      (if keys[k] in fields && !fields[keys[k]].List? then [RubricNotList(keys[k], name)] else [])
  {
    assert keys[..k + 1][..k] == keys[..k];
  }

  /** The rubric-key loop of the item check: one error per rubric key present with a non-list value. */
  method CheckRubrics(fields: map<string, Value>, name: string) returns (errors: seq<string>)
    ensures errors == Messages(RubricDefects(fields, name, RubricKeys))
  {
    errors := [];
    var k := 0;
    while k < |RubricKeys|
      invariant 0 <= k <= |RubricKeys|
      invariant errors == Messages(RubricDefects(fields, name, RubricKeys[..k]))
    {
      var key := RubricKeys[k];
      ghost var before := RubricDefects(fields, name, RubricKeys[..k]);
      RubricDefectsStep(fields, name, RubricKeys, k);
      if key in fields && !fields[key].List? {
        MessagesSnoc(before, RubricNotList(key, name));
        errors := errors + [Message(RubricNotList(key, name))];
        assert RubricDefects(fields, name, RubricKeys[..k + 1]) == before + [RubricNotList(key, name)];
      } else {
        assert RubricDefects(fields, name, RubricKeys[..k + 1]) == before;
      }
      k := k + 1;
    }
    assert RubricKeys[..k] == RubricKeys;
  }

  method CheckItem(item: Value, i: nat) returns (errors: seq<string>)
    ensures errors == Messages(ItemDefects(item, i))
  {
    if !item.Dict? {
      return [Message(NotAnObject(i))];
    }
    var fields := item.fields;
    var name := ItemLabel(fields, i);
    errors := [];
    if !HasContent(fields) {
      errors := [Message(MissingContent(name))];
    }
    var rubricErrors := CheckRubrics(fields, name);
    MessagesAppend(ContentDefects(fields, name), RubricDefects(fields, name, RubricKeys));
    errors := errors + rubricErrors;
  }


  lemma {:induction false} MessagesAppend(a: seq<Defect>, b: seq<Defect>)
    ensures Messages(a + b) == Messages(a) + Messages(b)
    decreases |b|
  {
    if b == [] {
      assert a + b == a;
    } else {
      var init, last := b[..|b| - 1], b[|b| - 1];
      assert a + b == (a + init) + [last];
      assert init + [last] == b;
      calc {
        Messages(a + b);
        == { MessagesSnoc(a + init, last); }
        Messages(a + init) + [Message(last)];
        == { MessagesAppend(a, init); }
        Messages(a) + Messages(init) + [Message(last)];
        == { MessagesSnoc(init, last); }
        Messages(a) + Messages(b);
      }
    }
  }

  // ---------------------------------------------------------------------------
  // Properties

  predicate IsItemDefect(d: Defect) {
    d.NotAnObject? || d.MissingContent? || d.RubricNotList?
  }

  lemma {:induction false} RubricDefectsAreRubric(fields: map<string, Value>, name: string, keys: seq<string>)
    ensures forall d :: d in RubricDefects(fields, name, keys) ==> d.RubricNotList?
  {
    if keys != [] {
      RubricDefectsAreRubric(fields, name, keys[..|keys| - 1]);
    }
  }

  lemma {:induction false} ItemDefectsOnly(items: seq<Value>)
    ensures forall d :: d in AllItemDefects(items) ==> IsItemDefect(d)
  {
    if items != [] {
      ItemDefectsOnly(items[..|items| - 1]);
      var last := items[|items| - 1];
      if last.Dict? {
        RubricDefectsAreRubric(last.fields, ItemLabel(last.fields, |items| - 1), RubricKeys);
      }
    }
  }

  lemma FilterNone(blocks: seq<Value>)
    requires forall i :: 0 <= i < |blocks| ==> !Truthy(blocks[i])
    ensures Filter(blocks, Truthy) == []
  {
    if Filter(blocks, Truthy) != [] {
      var x := Filter(blocks, Truthy)[0];
      FilterMembership(blocks, Truthy, x);
    }
  }

  /** An unparsable stream yields exactly one "Invalid YAML" defect carrying the parser's message. */
  lemma ParseErrorIsOneDefect(detail: string)
    ensures Messages(Validate(ParseError(detail))) == ["Invalid YAML: " + detail]
  {
  }

  /** The file is reported empty, and nothing else, exactly when every block is falsy. */
  lemma EmptyIffNoTruthyBlock(blocks: seq<Value>)
    ensures Validate(Blocks(blocks)) == [EmptyFile] <==> forall i :: 0 <= i < |blocks| ==> !Truthy(blocks[i])
  {
    var docs := Filter(blocks, Truthy);
    if forall i :: 0 <= i < |blocks| ==> !Truthy(blocks[i]) {
      FilterNone(blocks);
    } else {
      var i :| 0 <= i < |blocks| && Truthy(blocks[i]);
      FilterMembership(blocks, Truthy, blocks[i]);
      assert docs != [];
      var layout := Detect(docs);
      if layout.Detected? {
        var p := layout.prompts;
        if p.List? && !(p.items == [] && layout.header == map[]) {
          ItemDefectsOnly(p.items);
          assert layout.notes == [];
          assert Validate(Blocks(blocks)) == AllItemDefects(p.items);
          assert EmptyFile !in AllItemDefects(p.items);
        }
      }
    }
  }

  lemma FilterTruthyPair(h: map<string, Value>, items: seq<Value>, rest: seq<Value>)
    requires h != map[] && items != []
    ensures Filter([Dict(h), List(items)] + rest, Truthy) == [Dict(h), List(items)] + Filter(rest, Truthy)
  {
    FilterAppend([Dict(h), List(items)], rest, Truthy);
    assert [Dict(h), List(items)][..1] == [Dict(h)];
  }

  /**
   * A header mapping followed by a prompt list is read as header and items,
   * and whatever blocks come after the list are never looked at.
   */
  lemma HeaderThenListIgnoresRest(h: map<string, Value>, items: seq<Value>, rest: seq<Value>)
    requires h != map[] && items != []
    ensures Validate(Blocks([Dict(h), List(items)] + rest)) == AllItemDefects(items)
  {
    FilterTruthyPair(h, items, rest);
    var docs := [Dict(h), List(items)] + Filter(rest, Truthy);
    assert docs[0] == Dict(h) && docs[1] == List(items);
    assert Detect(docs) == Detected(h, List(items), []);
  }

  /**
   * A single mapping whose `prompts` value is not a list yields exactly the
   * two defects about the prompts key and the missing prompt list.
   */
  lemma PromptsKeyNotListDefects(blocks: seq<Value>, h: map<string, Value>)
    requires Filter(blocks, Truthy) == [Dict(h)]
    requires "prompts" in h && !h["prompts"].List?
    ensures Messages(Validate(Blocks(blocks))) ==
      ["The 'prompts' key must contain a list of prompts.", "Could not identify a valid list of prompts."]
  {
    assert Validate(Blocks(blocks)) == [PromptsKeyNotList, NoPromptList];
    MessagesSnoc([PromptsKeyNotList], NoPromptList);
  }

  /**
   * In a stream of mappings that is not a single `prompts` mapping, the first
   * block is the header exactly when it has a header key and no prompt key;
   * otherwise every block is an item.
   */
  lemma MappingStream(blocks: seq<Value>)
    requires var docs := Filter(blocks, Truthy);
      docs != [] && AllDicts(docs) && !(|docs| == 1 && "prompts" in docs[0].fields)
    ensures var docs := Filter(blocks, Truthy);
      Validate(Blocks(blocks)) ==
        if (exists i :: 0 <= i < |HeaderKeys| && HeaderKeys[i] in docs[0].fields) &&
           (forall i :: 0 <= i < |PromptKeys| ==> PromptKeys[i] !in docs[0].fields)
        then AllItemDefects(docs[1..])
        else AllItemDefects(docs)
  {
    var docs := Filter(blocks, Truthy);
    FilterMembership(blocks, Truthy, docs[0]);
    if IsHeaderBlock(docs[0].fields) {
      assert docs[0].fields != map[];
    } else {
      assert docs != [];
    }
  }

  /** Blocks in none of the four layouts yield exactly "Invalid YAML structure." and no item checks. */
  lemma UnrecognizedLayout(blocks: seq<Value>)
    requires var docs := Filter(blocks, Truthy);
      docs != [] && !AllDicts(docs) &&
      !(|docs| > 1 && docs[0].Dict? && docs[1].List?) &&
      !(|docs| == 1 && (docs[0].Dict? || docs[0].List?))
    ensures Messages(Validate(Blocks(blocks))) == ["Invalid YAML structure."]
  {
  }

  /**
   * The "at least one prompt or config header" defect is never reported:
   * blocks that survive the falsy filter always supply a non-empty header or
   * a non-empty prompt list.
   */
  lemma NoContentUnreachable(parsed: Parsed)
    ensures NoContent !in Validate(parsed)
  {
    if parsed.Blocks? {
      var docs := Filter(parsed.blocks, Truthy);
      if docs != [] {
        FilterMembership(parsed.blocks, Truthy, docs[0]);
        if |docs| > 1 {
          FilterMembership(parsed.blocks, Truthy, docs[1]);
        }
        var layout := Detect(docs);
        if layout.Detected? && layout.prompts.List? {
          assert layout.prompts.items != [] || layout.header != map[];
          ItemDefectsOnly(layout.prompts.items);
        }
      }
    }
  }

  /**
   * A non-mapping item yields exactly one "not a valid object" defect. A
   * mapping item yields a content defect iff it has no string `prompt` or
   * `promptText` and no list `messages`, and one rubric defect for each
   * rubric key present with a non-list value; the content defect comes
   * first, and every defect names the item by its id or by "index-i".
   */
  lemma ItemDefectsSpec(item: Value, i: nat)
    ensures !item.Dict? ==>
      (Messages(ItemDefects(item, i)) == ["Prompt at index " + NatToString(i) + " is not a valid object."])
    ensures item.Dict? ==>
      var f := item.fields;
      var name := if "id" in f then Display(f["id"]) else "index-" + NatToString(i);
      var ds := ItemDefects(item, i);
      (MissingContent(name) in ds <==> !HasContent(f)) &&
      (ds != [] && ds[0].MissingContent? ==> !HasContent(f)) &&
      (!HasContent(f) ==> ds[0] == MissingContent(name)) &&
      (forall k :: RubricNotList(k, name) in ds <==> k in RubricKeys && k in f && !f[k].List?) &&
      (forall d :: d in ds ==> d == MissingContent(name) || (d.RubricNotList? && d.name == name))
  {
    if item.Dict? {
      var f := item.fields;
      var name := ItemLabel(f, i);
      RubricMembership(f, name, RubricKeys);
    }
  }

  lemma {:induction false} RubricMembership(fields: map<string, Value>, name: string, keys: seq<string>)
    ensures forall d :: d in RubricDefects(fields, name, keys) <==>
      d.RubricNotList? && d.name == name && d.key in keys && d.key in fields && !fields[d.key].List?
  {
    if keys != [] {
      var init := keys[..|keys| - 1];
      RubricMembership(fields, name, init);
      assert keys == init + [keys[|keys| - 1]];
    }
  }

  /** The item defects of a longer list extend those of its prefix: defects appear in item order. */
  lemma {:induction false} ItemDefectsInOrder(items: seq<Value>, n: nat)
    requires n <= |items|
    ensures AllItemDefects(items[..n]) <= AllItemDefects(items)
    decreases |items| - n
  {
    if n < |items| {
      ItemDefectsInOrder(items, n + 1);
      assert items[..n + 1][..n] == items[..n];
    } else {
      assert items[..n] == items;
    }
  }
}
