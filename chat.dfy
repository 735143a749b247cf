/**
 * The chat protocol of the "AI Chat" ribbon command: a note is a chat, cut
 * into turns by a separator element; a turn may open with a YAML code block
 * holding the message's fields; the assistant's streamed reply is written
 * back into the note as a new turn, followed by an empty turn for the user.
 */
module Chat {
  import opened Wrappers
  import opened Text
  import opened Json
  import opened Vault

  /** The separator between turns, which the plugin writes and splits on. */
  const Sep: string := "<hr class=\"vault-ai-sep\">"

  /** A top-level markdown node: a fenced code block, or any other block, kept abstract. */
  datatype MdNode = Code(lang: Option<string>, value: string) | Block(kind: string, text: string)

  /**
   * The third-party codecs the handler calls, as given functions: markdown
   * parsing and serialisation (with the wiki-link extension), YAML parsing
   * and serialisation, and the text a template literal makes of a value that
   * is not a string.
   */
  datatype Codecs = Codecs(
    parseMarkdown: string -> seq<MdNode>,
    stringifyMarkdown: seq<MdNode> -> string,
    parseYaml: string -> map<string, Json>,
    stringifyYaml: map<string, Json> -> string,
    show: Json -> string)

  /** A chat message, or the streamed response: the fields of a JSON object. */
  type Message = map<string, Json>

  // ---------------------------------------------------------------------
  // The separator
  // ---------------------------------------------------------------------

  /** `<` opens the separator and appears nowhere else in it; it ends in `>` and has no newline or backtick. */
  lemma SepShape()
    ensures |Sep| == 25 && Sep[0] == '<' && Sep[|Sep| - 1] == '>'
    ensures forall i :: 0 < i < |Sep| ==> Sep[i] != '<'
    ensures forall i :: 0 <= i < |Sep| ==> Sep[i] != '\n' && Sep[i] != '`'
  {
  }

  /** Two occurrences of the separator never overlap. */
  lemma SepOverlapFree()
    ensures OverlapFree(Sep)
  {
    SepShape();
    forall d: nat | 0 < d < |Sep|
      ensures Sep[d..] != Sep[..|Sep| - d]
    {
      assert Sep[d..][0] != Sep[..|Sep| - d][0];
    }
  }

  /** Whatever precedes it, a separator appended to a text starts no occurrence inside that text. */
  lemma SepNoStraddle(a: string)
    ensures NoStraddle(a, Sep)
  {
    SepShape();
    forall j: nat | j < |a| < j + |Sep|
      ensures !OccursAt(a + Sep, Sep, j)
    {
      var k := |a| - j;
      assert (a + Sep)[j + k] == Sep[0] != Sep[k];
    }
  }

  predicate Newlines(s: string) {
    forall i :: 0 <= i < |s| ==> s[i] == '\n'
  }

  /** Blank lines around a text that has no separator add none. */
  lemma NewlinesFree(nl: string, s: string, nl': string)
    requires Newlines(nl) && Newlines(nl') && Free(s, Sep)
    ensures Free(nl + s + nl', Sep)
  {
    SepShape();
    var t := nl + s;
    forall j: nat
      ensures !OccursAt(t, Sep, j)
    {
      if j < |nl| {
        assert t[j + 0] != Sep[0];
      } else {
        var m := j - |nl|;
        OccursAtShift(t, |nl|, Sep, m);
        assert t[|nl|..] == s;
      }
    }
    forall j: nat
      ensures !OccursAt(t + nl', Sep, j)
    {
      if j + |Sep| <= |t| {
        OccursAtConcat(t, nl', Sep, j);
      } else if j + |Sep| <= |t + nl'| {
        var last := |Sep| - 1;
        assert (t + nl')[j + last] != Sep[last];
      }
    }
  }

  /**
   * Two separator-free texts glued by a piece that starts with a character
   * the separator lacks, and holds no `<`, hold no separator.
   */
  lemma GlueFree(x: string, glue: string, y: string)
    requires Free(x, Sep) && Free(y, Sep) && |glue| > 0
    requires forall i :: 0 <= i < |Sep| ==> Sep[i] != glue[0]
    requires forall i :: 0 <= i < |glue| ==> glue[i] != '<'
    ensures Free(x + glue + y, Sep)
  {
    SepShape();
    var s := x + glue + y;
    forall j: nat
      ensures !OccursAt(s, Sep, j)
    {
      if j + |Sep| <= |x| {
        assert s == x + (glue + y);
        OccursAtConcat(x, glue + y, Sep, j);
      } else if j < |x| {
        var k := |x| - j;
        assert s[j + k] == glue[0] != Sep[k];
      } else if j < |x| + |glue| {
        assert s[j + 0] == glue[j - |x|] != Sep[0];
      } else {
        var n := |x| + |glue|;
        OccursAtShift(s, n, Sep, j - n);
        assert s[n..] == y;
      }
    }
  }

  // ---------------------------------------------------------------------
  // Reading the note
  // ---------------------------------------------------------------------

  /**
   * The chat body: the whole text when the note has no frontmatter, or else
   * the lines after the frontmatter's closing line `line` (counted from 0),
   * joined back with newlines.
   */
  function StripFrontmatter(text: string, frontmatterEnd: Option<nat>): string
  {
    match frontmatterEnd
    case None => text
    case Some(line) =>
      var lines := Split(text, "\n");
      if line + 1 < |lines| then Join(lines[line + 1..], "\n") else ""
  }

  /** The line count is the newline count plus one. */
  lemma LineCount(text: string)
    ensures |Split(text, "\n")| == Count(text, "\n") + 1
  {
    SplitCount(text, "\n");
  }

  /**
   * With frontmatter ending on line `line`, the body is the suffix of the
   * text that starts right after the newline ending that line, and its lines
   * are the text's lines from `line + 1` on; it is empty when the text has no
   * more lines than that.
   */
  lemma StripFrontmatterSuffix(text: string, line: nat, p: nat)
    requires p == PieceStart(text, "\n", 0, line + 1)
    ensures line + 1 >= |Split(text, "\n")| ==> StripFrontmatter(text, Some(line)) == ""
    ensures line + 1 < |Split(text, "\n")| ==>
              && 0 < p <= |text| && text[p - 1] == '\n'
              && StripFrontmatter(text, Some(line)) == text[p..]
              && Split(text[p..], "\n") == Split(text, "\n")[line + 1..]
  {
    var lines := Split(text, "\n");
    var k := line + 1;
    if k < |lines| {
      SplitSuffix(text, "\n", k, p);
      assert text[p - 1..p][0] == text[p - 1];
      StripFrontmatterBody(text, line, p);
    }
  }

  /** The body after the frontmatter is the suffix where line `line + 1` starts. */
  lemma StripFrontmatterBody(text: string, line: nat, p: nat)
    requires line + 1 < |Split(text, "\n")| && p == PieceStart(text, "\n", 0, line + 1)
    ensures StripFrontmatter(text, Some(line)) == text[p..]
  {
    JoinSuffix(text, "\n", line + 1, p);
  }

  /** `content.split(separator)`: the turns of the chat, in order. */
  function Turns(content: string): seq<string> {
    Split(content, Sep)
  }

  /**
   * There is one turn more than there are separators, no turn contains the
   * separator, and joining the turns with the separator gives the body back.
   */
  lemma Segmentation(content: string)
    ensures |Turns(content)| == Count(content, Sep) + 1
    ensures forall k: nat, j: nat :: k < |Turns(content)| ==> !OccursAt(Turns(content)[k], Sep, j)
    ensures Join(Turns(content), Sep) == content
  {
    SepOverlapFree();
    SplitCount(content, Sep);
    SplitPiecesAreFree(content, Sep);
    JoinSplit(content, Sep);
  }

  /**
   * The message a parsed turn stands for. A leading code block is removed;
   * its value, YAML-decoded, gives the fields when its language is `yaml`, and
   * there are none otherwise; `content` is the rest of the turn re-serialised
   * and overrides any such field. A turn without a leading code block is a
   * user message.
   */
  function DecodeTree(tree: seq<MdNode>, c: Codecs): Message
  {
    if |tree| >= 1 && tree[0].Code? then
      var metadata := if tree[0].lang == Some("yaml") then c.parseYaml(tree[0].value) else map[];
      metadata["content" := JStr(c.stringifyMarkdown(tree[1..]))]
    else
      map["role" := JStr("user"), "content" := JStr(c.stringifyMarkdown(tree))]
  }

  function DecodeTurn(part: string, c: Codecs): Message {
    DecodeTree(c.parseMarkdown(part), c)
  }

  /** `parts.map(...)`: one message per turn. */
  function DecodeAll(content: string, c: Codecs): seq<Message> {
    var parts := Turns(content);
    seq(|parts|, i requires 0 <= i < |parts| => DecodeTurn(parts[i], c))
  }

  /** The request carries one message per separator plus one. */
  lemma MessageCount(content: string, c: Codecs)
    ensures |DecodeAll(content, c)| == Count(content, Sep) + 1
  {
    Segmentation(content);
  }

  /**
   * What a decoded turn holds, field by field: `content` is always the
   * re-serialised rest; with a leading `yaml` block every other field comes
   * from the YAML, with another leading code block there is no other field
   * (not even a role), and without one the message is a user message.
   */
  lemma DecodeTreeFields(tree: seq<MdNode>, c: Codecs, k: string)
    ensures var m := DecodeTree(tree, c);
            var lead := |tree| >= 1 && tree[0].Code?;
            && (lead ==> Get(m, "content") == JStr(c.stringifyMarkdown(tree[1..])))
            && (lead && tree[0].lang == Some("yaml") && k != "content" ==>
                  Get(m, k) == Get(c.parseYaml(tree[0].value), k))
            && (lead && tree[0].lang != Some("yaml") ==> m.Keys == {"content"})
            && (!lead ==> m.Keys == {"role", "content"} && m["role"] == JStr("user")
                          && m["content"] == JStr(c.stringifyMarkdown(tree)))
  {
  }

  /** The parsed tree of one turn, whose children the handler edits in place. */
  class Root {
    var children: seq<MdNode>

    constructor (children: seq<MdNode>)
      ensures this.children == children
    {
      this.children := children;
    }

    /** `tree.children.splice(0, 1)`: drops the first child, if there is one. */
    method RemoveFirst()
      modifies this
      ensures children == if |old(children)| == 0 then [] else old(children)[1..]
    {
      if |children| > 0 {
        children := children[1..];
      }
    }
  }

  /** The callback `parts.map` applies to each turn, removing the leading code block in place. */
  method DecodePart(part: string, c: Codecs) returns (message: Message)
    ensures message == DecodeTurn(part, c)
  {
    var tree := new Root(c.parseMarkdown(part));
    if |tree.children| >= 1 && tree.children[0].Code? {
      var codeBlock := tree.children[0];
      var metadata: Message := map[];
      if codeBlock.lang == Some("yaml") {
        metadata := c.parseYaml(codeBlock.value);
      }
      tree.RemoveFirst();
      var content := c.stringifyMarkdown(tree.children);
      message := metadata["content" := JStr(content)];
    } else {
      var content := c.stringifyMarkdown(tree.children);
      message := map["role" := JStr("user"), "content" := JStr(content)];
    }
  }

  // ---------------------------------------------------------------------
  // Writing the reply
  // ---------------------------------------------------------------------

  /** The response without its `content` field (`const { content, ...rest } = delta`). */
  function Rest(fields: Message): Message {
    fields - {"content"}
  }

  /** `${content ?? ""}`: nothing for `null` or `undefined`, a string as it is. */
  function ContentText(fields: Message, c: Codecs): string {
    match Get(fields, "content")
    case JUndef => ""
    case JNull => ""
    case JStr(s) => s
    case _ => c.show(Get(fields, "content"))
  }

  /**
   * `processResponse`: a fenced code block with info string `yaml` holding
   * every field but `content`, then a blank line and the content.
   */
  function Render(fields: Message, c: Codecs): string {
    "```yaml\n" + c.stringifyYaml(Rest(fields)) + "```\n\n" + ContentText(fields, c)
  }

  /**
   * The rendered turn opens the yaml fence, whose YAML is that of the fields
   * without `content`, and ends with the content verbatim, or with the closed
   * fence and a blank line when the content is `null` or missing.
   */
  lemma RenderShape(fields: Message, c: Codecs)
    ensures var r := Render(fields, c);
            && r[..8] == "```yaml\n"
            && "content" !in Rest(fields)
            && (forall k :: k != "content" ==> Get(Rest(fields), k) == Get(fields, k))
            && (Get(fields, "content").JStr? ==>
                  r == "```yaml\n" + c.stringifyYaml(Rest(fields)) + "```\n\n" + Get(fields, "content").s)
            && (Get(fields, "content").JUndef? || Get(fields, "content").JNull? ==>
                  r == "```yaml\n" + c.stringifyYaml(Rest(fields)) + "```\n\n")
  {
  }

  /** A rendered response holds no separator when neither its YAML nor its content does. */
  lemma RenderFree(fields: Message, c: Codecs)
    requires Free(c.stringifyYaml(Rest(fields)), Sep) && Free(ContentText(fields, c), Sep)
    ensures Free(Render(fields, c), Sep)
  {
    var yaml := c.stringifyYaml(Rest(fields));
    assert Free("", Sep);
    GlueFree("", "```yaml\n", yaml);
    assert "" + "```yaml\n" + yaml == "```yaml\n" + yaml;
    GlueFree("```yaml\n" + yaml, "```\n\n", ContentText(fields, c));
  }

  /**
   * The turn a chat leaves in the note for the response, blank lines and all,
   * decodes back to the response, provided the codecs behave: the markdown
   * parser reads the fence back as a `yaml` code block, whose value `v` is
   * whatever text the parser keeps of the fence's inside (a CommonMark parser
   * drops its final line ending), followed by nodes that serialise to the
   * content, and YAML reads that value back as the fields written.
   */
  lemma RenderDecode(fields: Message, c: Codecs, v: string, body: seq<MdNode>)
    requires Get(fields, "content").JStr?
    requires c.parseMarkdown("\n\n" + Render(fields, c) + "\n\n") == [Code(Some("yaml"), v)] + body
    requires c.stringifyMarkdown(body) == Get(fields, "content").s
    requires c.parseYaml(v) == Rest(fields)
    ensures DecodeTurn("\n\n" + Render(fields, c) + "\n\n", c) == fields
  {
    var tree := c.parseMarkdown("\n\n" + Render(fields, c) + "\n\n");
    assert tree[1..] == body;
    var m := DecodeTurn("\n\n" + Render(fields, c) + "\n\n", c);
    assert m == Rest(fields)["content" := fields["content"]];
    assert m.Keys == fields.Keys;
  }

  /** The note after a streamed chunk: the original text, a separator, and the rendered response so far. */
  function ChunkDoc(text: string, fields: Message, c: Codecs): string {
    text + "\n\n" + Sep + "\n\n" + Render(fields, c)
  }

  /** `response.tool_calls ? "tool" : "user"`. */
  function Role(fields: Message): string {
    if Truthy(Get(fields, "tool_calls")) then "tool" else "user"
  }

  function RoleBlock(fields: Message, c: Codecs): string {
    "```yaml\n" + c.stringifyYaml(map["role" := JStr(Role(fields))]) + "```"
  }

  /** The note after the stream ends: a separator and a `role` block appended to what it holds. */
  function FinalDoc(data: string, fields: Message, c: Codecs): string {
    data + "\n\n" + Sep + "\n\n" + RoleBlock(fields, c)
  }

  /** The role block holds no separator when its YAML does not. */
  lemma RoleBlockFree(fields: Message, c: Codecs)
    requires Free(c.stringifyYaml(map["role" := JStr(Role(fields))]), Sep)
    ensures Free(RoleBlock(fields, c), Sep)
  {
    var yaml := c.stringifyYaml(map["role" := JStr(Role(fields))]);
    assert Free("", Sep);
    GlueFree("", "```yaml\n", yaml);
    assert "" + "```yaml\n" + yaml == "```yaml\n" + yaml;
    GlueFree("```yaml\n" + yaml, "```", "");
    assert "```yaml\n" + yaml + "```" + "" == RoleBlock(fields, c);
  }

  /** A streamed reply none of whose deltas carries `tool_calls` hands the next turn to the user. */
  lemma {:induction false} RoleWithoutToolCalls(stream: seq<Message>)
    requires StreamCompatible(map[], stream)
    requires forall i :: 0 <= i < |stream| ==> Get(stream[i], "tool_calls") == JUndef
    ensures Get(Fold(map[], stream), "tool_calls") == JUndef
    ensures Role(Fold(map[], stream)) == "user"
    decreases |stream|
  {
    if |stream| > 0 {
      var init := stream[..|stream| - 1];
      var last := stream[|stream| - 1];
      FoldLast(map[], stream, init, last);
      assert forall i :: 0 <= i < |init| ==> init[i] == stream[i];
      RoleWithoutToolCalls(init);
      GetMergeFields(Fold(map[], init), last, "tool_calls");
    }
  }

  /**
   * A streamed reply in which a delta carries an array of `tool_calls`, and no
   * later delta carries anything but `undefined` or an array there, hands the
   * next turn to the tool.
   */
  lemma {:induction false} RoleWithToolCalls(stream: seq<Message>, i: nat)
    requires StreamCompatible(map[], stream) && i < |stream|
    requires Get(stream[i], "tool_calls").JArr?
    requires forall j :: i < j < |stream| ==>
               Get(stream[j], "tool_calls") == JUndef || Get(stream[j], "tool_calls").JArr?
    ensures Get(Fold(map[], stream), "tool_calls").JArr?
    ensures Role(Fold(map[], stream)) == "tool"
    decreases |stream|
  {
    var init := stream[..|stream| - 1];
    var last := stream[|stream| - 1];
    FoldLast(map[], stream, init, last);
    GetMergeFields(Fold(map[], init), last, "tool_calls");
    if i < |init| {
      assert forall j :: 0 <= j < |init| ==> init[j] == stream[j];
      RoleWithToolCalls(init, i);
    }
  }

  /** Where a streamed tool call keeps its arguments: `tool_calls[i].function.arguments`. */
  function ArgumentsPath(i: nat): seq<Step> {
    [Key("tool_calls"), Index(i), Key("function"), Key("arguments")]
  }

  /**
   * A tool call's arguments arrive in pieces across deltas and are glued
   * together: the array of calls is merged index by index, not replaced.
   */
  lemma ToolCallArguments(acc: Message, d: Message, i: nat, a: string, b: string)
    requires FieldsCompatible(acc, d) && Along(JObj(d), ArgumentsPath(i))
    requires At(JObj(acc), ArgumentsPath(i)) == JStr(a) && At(JObj(d), ArgumentsPath(i)) == JStr(b)
    ensures At(JObj(MergeFields(acc, d)), ArgumentsPath(i)) == JStr(a + b)
  {
    assert Merge(JObj(acc), JObj(d)) == JObj(MergeFields(acc, d));
    MergeConcatAt(JObj(acc), JObj(d), ArgumentsPath(i), a, b);
  }

  /**
   * A chunk write adds exactly one turn boundary after the original text: the
   * turns are those of the text (with the blank line), then those of the
   * rendered response, which is one turn when it holds no separator.
   */
  lemma ChunkTurns(text: string, fields: Message, c: Codecs)
    ensures Turns(ChunkDoc(text, fields, c)) == Turns(text + "\n\n") + Turns("\n\n" + Render(fields, c))
    ensures Free(Render(fields, c), Sep) ==>
              Turns(ChunkDoc(text, fields, c)) == Turns(text + "\n\n") + ["\n\n" + Render(fields, c)]
  {
    var a := text + "\n\n";
    var b := "\n\n" + Render(fields, c);
    SepNoStraddle(a);
    SplitConcat(a, b, Sep);
    assert ChunkDoc(text, fields, c) == a + Sep + b;
    if Free(Render(fields, c), Sep) {
      NewlinesFree("\n\n", Render(fields, c), "");
      assert "\n\n" + Render(fields, c) + "" == b;
      SplitFree(b, Sep);
    }
  }

  /** The final write appends one turn, the role block, to whatever the note holds. */
  lemma FinalTurns(data: string, fields: Message, c: Codecs)
    ensures Turns(FinalDoc(data, fields, c)) == Turns(data + "\n\n") + Turns("\n\n" + RoleBlock(fields, c))
  {
    var a := data + "\n\n";
    var b := "\n\n" + RoleBlock(fields, c);
    SepNoStraddle(a);
    SplitConcat(a, b, Sep);
    assert FinalDoc(data, fields, c) == a + Sep + b;
  }

  /**
   * After a chat with at least one chunk, the note holds the original turns,
   * then the response as one turn, then the empty turn with the next role,
   * provided neither the YAML written nor the content contains the separator.
   */
  lemma ChatTurns(text: string, fields: Message, c: Codecs)
    requires Free(c.stringifyYaml(Rest(fields)), Sep) && Free(ContentText(fields, c), Sep)
    requires Free(c.stringifyYaml(map["role" := JStr(Role(fields))]), Sep)
    ensures Turns(FinalDoc(ChunkDoc(text, fields, c), fields, c)) ==
            Turns(text + "\n\n") + ["\n\n" + Render(fields, c) + "\n\n", "\n\n" + RoleBlock(fields, c)]
  {
    RenderFree(fields, c);
    RoleBlockFree(fields, c);
    BlocksTurns(text, fields, c);
  }

  /** `ChatTurns` for rendered blocks already known to hold no separator. */
  lemma BlocksTurns(text: string, fields: Message, c: Codecs)
    requires Free(Render(fields, c), Sep) && Free(RoleBlock(fields, c), Sep)
    ensures Turns(FinalDoc(ChunkDoc(text, fields, c), fields, c)) ==
            Turns(text + "\n\n") + ["\n\n" + Render(fields, c) + "\n\n", "\n\n" + RoleBlock(fields, c)]
  {
    var r := Render(fields, c);
    var a := text + "\n\n";
    var mid := "\n\n" + r + "\n\n";
    var b := "\n\n" + RoleBlock(fields, c);
    SepNoStraddle(a);
    SepNoStraddle(a + Sep + mid);
    assert FinalDoc(ChunkDoc(text, fields, c), fields, c) == (a + Sep + mid) + Sep + b;
    SplitConcat(a + Sep + mid, b, Sep);
    SplitConcat(a, mid, Sep);
    NewlinesFree("\n\n", r, "\n\n");
    SplitFree(mid, Sep);
    NewlinesFree("\n\n", RoleBlock(fields, c), "");
    assert "\n\n" + RoleBlock(fields, c) + "" == b;
    SplitFree(b, Sep);
  }

  /**
   * Reading the note back after a chat: the second-to-last message is the
   * response, and the last is the empty message with the next role, provided
   * the codecs read back what they wrote: `v` and `w` are the values the
   * markdown parser gives the response's and the role's `yaml` code blocks.
   */
  lemma ChatDecode(text: string, fields: Message, c: Codecs, v: string, w: string, body: seq<MdNode>)
    requires Free(c.stringifyYaml(Rest(fields)), Sep) && Free(ContentText(fields, c), Sep)
    requires Free(c.stringifyYaml(map["role" := JStr(Role(fields))]), Sep)
    requires Get(fields, "content").JStr?
    requires c.parseMarkdown("\n\n" + Render(fields, c) + "\n\n") == [Code(Some("yaml"), v)] + body
    requires c.stringifyMarkdown(body) == Get(fields, "content").s
    requires c.parseYaml(v) == Rest(fields)
    requires c.parseMarkdown("\n\n" + RoleBlock(fields, c)) == [Code(Some("yaml"), w)]
    requires c.stringifyMarkdown([]) == ""
    requires c.parseYaml(w) == map["role" := JStr(Role(fields))]
    ensures var messages := DecodeAll(FinalDoc(ChunkDoc(text, fields, c), fields, c), c);
            && |messages| >= 2
            && messages[|messages| - 2] == fields
            && messages[|messages| - 1] == map["role" := JStr(Role(fields)), "content" := JStr("")]
  {
    ChatTurns(text, fields, c);
    RenderDecode(fields, c, v, body);
    var roleTurn := "\n\n" + RoleBlock(fields, c);
    var tree := c.parseMarkdown(roleTurn);
    assert tree[1..] == [];
  }

  /**
   * The "AI Chat" command once the request is sent: each streamed delta is
   * merged into the response and the note is rewritten from the original
   * text and the response so far; at the end the separator and role block
   * are appended to what the note then holds.
   */
  method Converse(note: Note, text: string, stream: seq<Message>, c: Codecs) returns (response: Message)
    requires StreamCompatible(map[], stream)
    modifies note
    ensures response == Fold(map[], stream)
    ensures note.data ==
            FinalDoc(if |stream| == 0 then old(note.data) else ChunkDoc(text, response, c), response, c)
  {
    var acc := new Accumulator();
    var i := 0;
    while i < |stream|
      invariant 0 <= i <= |stream|
      invariant fresh(acc)
      invariant StreamCompatible(map[], stream[..i])
      invariant acc.fields == Fold(map[], stream[..i])
      invariant note.data == if i == 0 then old(note.data) else ChunkDoc(text, acc.fields, c)
    {
      var next := stream[..i + 1];
      StreamCompatiblePrefix(map[], stream, i + 1);
      assert next[..i] == stream[..i] && next[i] == stream[i];
      acc.Absorb(stream[i]);
      var snapshot := acc.fields;
      note.Process(_ => ChunkDoc(text, snapshot, c));
      i := i + 1;
    }
    assert stream[..i] == stream;
    response := acc.fields;
    note.Process(data => FinalDoc(data, response, c));
  }

  /**
   * The whole "AI Chat" command: the body after the frontmatter is decoded
   * turn by turn into the request's messages, then the reply is streamed into
   * the note. The chat API itself is the given `stream`.
   */
  method AiChat(note: Note, text: string, frontmatterEnd: Option<nat>, stream: seq<Message>, c: Codecs)
    returns (messages: seq<Message>, response: Message)
    requires StreamCompatible(map[], stream)
    modifies note
    ensures messages == DecodeAll(StripFrontmatter(text, frontmatterEnd), c)
    ensures response == Fold(map[], stream)
    ensures note.data ==
            FinalDoc(if |stream| == 0 then old(note.data) else ChunkDoc(text, response, c), response, c)
  {
    var content := StripFrontmatter(text, frontmatterEnd);
    var parts := Turns(content);
    messages := [];
    var i := 0;
    while i < |parts|
      invariant 0 <= i <= |parts|
      invariant |messages| == i
      invariant forall j :: 0 <= j < i ==> messages[j] == DecodeTurn(parts[j], c)
      invariant note.data == old(note.data)
    {
      var message := DecodePart(parts[i], c);
      messages := messages + [message];
      i := i + 1;
    }
    response := Converse(note, text, stream, c);
  }
}
