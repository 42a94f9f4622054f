/**
 * The realtime side of the collaboration (rtvim in vim_realtime.js):
 * applyLocalEdit, which applies an edit message coming from Vim to the shared
 * document, and the outbound builders, which turn the shared document's
 * change events into edit messages for Vim.
 *
 * The shared list of lines is a seq<string>, the cursor map a map from user
 * ids to position text, and a message a Wire.Message. A JavaScript exception
 * (a position outside the list or the line, a missing or mistyped field) is
 * the outcome Fault; a handler that posts messages returns them.
 */
module RtVim {
  import opened Wrappers
  import opened Wire
  import opened JsText
  import opened CollabStructs
  import opened IndexCaches
  import Codec

  /** A participant of the realtime document; `isMe` marks the local user. */
  datatype Collaborator = Collaborator(userId: string, isMe: bool)

  /** The parts of the realtime document the handlers read and write. */
  datatype RtDoc = RtDoc(
    lines: seq<string>,
    cursors: map<string, string>,
    collaborators: seq<Collaborator>)

  /** rtvim.doc (None until a file is loaded) and rtvim.needSync. */
  datatype RtState = RtState(doc: Option<RtDoc>, needSync: bool)

  /**
   * The result of applyLocalEdit: not consumed (false), consumed (true) with
   * the new state and the messages posted back to Vim, or an exception.
   */
  datatype Handled = NotConsumed | Consumed(state: RtState, posted: seq<Message>) | Fault

  /** The filename every buffer sync carries. */
  const SyncFilename := "Collaborative File"

  // ----- JavaScript value semantics the handlers rely on -----

  /** JavaScript truthiness of a field value. */
  predicate Truthy(v: Value)
  {
    match v
    case VInt(n) => n != 0
    case VStr(s) => s != ""
    case VList(_) => true
    case VNaN => false
  }

  /** String(v): the text a field value converts to. */
  function ToText(v: Value): string
  {
    match v
    case VInt(n) => IntToString(n)
    case VStr(s) => s
    case VList(items) => Join(items, ',')
    case VNaN => "NaN"
  }

  /**
   * `v == tag` under loose equality, for a tag that is not numeric text: a
   * number never equals it, a string or a list equals it when its text does.
   */
  predicate LooselyEquals(v: Value, tag: string)
  {
    (v.VStr? || v.VList?) && ToText(v) == tag
  }

  /** String(m[key]), where a missing field is `undefined`. */
  function FieldText(m: Message, key: string): string
  {
    if key in m then ToText(m[key]) else "undefined"
  }

  /** A type field that names none of the seven kinds. */
  predicate UnknownType(v: Value)
  {
    && !LooselyEquals(v, TypeCursorMove) && !LooselyEquals(v, TypeReplaceLine)
    && !LooselyEquals(v, TypeAppendLine) && !LooselyEquals(v, TypeRemoveLine)
    && !LooselyEquals(v, TypeInsertText) && !LooselyEquals(v, TypeDeleteText)
    && !LooselyEquals(v, TypeBufferSync)
  }

  // ----- applyLocalEdit -----

  /** The user id of the first collaborator marked as the local user, or "". */
  function LocalUserId(cs: seq<Collaborator>): (id: string)
    ensures (forall i :: 0 <= i < |cs| ==> !cs[i].isMe) ==> id == ""
    ensures (exists i :: 0 <= i < |cs| && cs[i].isMe) ==>
              exists i :: 0 <= i < |cs| && cs[i].isMe && id == cs[i].userId
                          && forall j :: 0 <= j < i ==> !cs[j].isMe
    decreases |cs|
  {
    if |cs| == 0 then ""
    else if cs[0].isMe then cs[0].userId
    else
      var id := LocalUserId(cs[1..]);
      assert forall i :: 1 <= i < |cs| ==> cs[i] == cs[1..][i - 1];
      id
  }

  /** The search loop of the cursor branch: stop at the first local collaborator. */
  method FindLocalUserId(cs: seq<Collaborator>) returns (id: string)
    ensures id == LocalUserId(cs)
  {
    id := "";
    var i := 0;
    while i < |cs|
      invariant 0 <= i <= |cs|
      invariant forall j :: 0 <= j < i ==> !cs[j].isMe
      invariant LocalUserId(cs) == LocalUserId(cs[i..])
    {
      if cs[i].isMe {
        id := cs[i].userId;
        return;
      }
      assert cs[i..][1..] == cs[i + 1..];
      i := i + 1;
    }
  }

  /** The text a cursor move stores: String(line) + ',' + String(column). */
  function CursorText(m: Message): string
    requires LineKey in m
  {
    ToText(m[LineKey]) + "," + FieldText(m, ColumnKey)
  }

  /**
   * The document after a non-sync edit message, or None when the JavaScript
   * code would throw. Kinds are tested in the order the code tests them; a message
   * of no known kind leaves the document as it was.
   */
  function EditDocument(d: RtDoc, m: Message): Option<RtDoc>
    requires TypeKey in m
  {
    var tag := m[TypeKey];
    var lines := d.lines;
    if LooselyEquals(tag, TypeCursorMove) then
      if LineKey in m
      then Some(d.(cursors := d.cursors[LocalUserId(d.collaborators) := CursorText(m)]))
      else None
    else if LooselyEquals(tag, TypeReplaceLine) then
      match (IntAt(m, LineKey), StrAt(m, TextKey))
      case (Some(l), Some(text)) =>
        if 1 <= l <= |lines| then Some(d.(lines := lines[l - 1 := text])) else None
      case _ => None
    else if LooselyEquals(tag, TypeAppendLine) then
      match (IntAt(m, LineKey), StrAt(m, TextKey))
      case (Some(l), Some(text)) =>
        if 0 <= l <= |lines| then Some(d.(lines := lines[..l] + [text] + lines[l..])) else None
      case _ => None
    else if LooselyEquals(tag, TypeRemoveLine) then
      match IntAt(m, LineKey)
      case Some(l) =>
        if 1 <= l <= |lines| then Some(d.(lines := lines[..l - 1] + lines[l..])) else None
      case None => None
    else if LooselyEquals(tag, TypeInsertText) then
      match (IntAt(m, LineKey), IntAt(m, IndexKey), StrAt(m, TextKey))
      case (Some(l), Some(index), Some(text)) =>
        if 1 <= l <= |lines| && 0 <= index <= |lines[l - 1]|
        then
          var s := lines[l - 1];
          Some(d.(lines := lines[l - 1 := s[..index] + text + s[index..]]))
        else None
      case _ => None
    else if LooselyEquals(tag, TypeDeleteText) then
      match (IntAt(m, LineKey), IntAt(m, IndexKey), IntAt(m, LengthKey))
      case (Some(l), Some(start), Some(length)) =>
        var end := start + length;
        if 1 <= l <= |lines| && 0 <= start <= end <= |lines[l - 1]|
        then
          var s := lines[l - 1];
          Some(d.(lines := lines[l - 1 := s[..start] + s[end..]]))
        else None
      case _ => None
    else
      Some(d)
  }

  /** The buffer-sync message syncModel posts for a document. */
  function SyncMessage(d: RtDoc): Message
  {
    map[TypeKey := VStr(TypeBufferSync), BufIdKey := VInt(0),
        FilenameKey := VStr(SyncFilename), LinesKey := VList(d.lines)]
  }

  /**
   * applyLocalEdit(msg): `data` is msg.data when it is a dictionary, and
   * None when it is missing or not a dictionary.
   */
  function ApplyLocalEdit(st: RtState, data: Option<Message>): (r: Handled)
    // Anything without a truthy type field is not consumed; everything else is.
    ensures r.NotConsumed? <==> data.None? || TypeKey !in data.value || !Truthy(data.value[TypeKey])
    // A sync request is always consumed and marks a sync as needed; with a
    // document loaded it is answered at once and the mark is cleared.
    ensures !r.NotConsumed? && LooselyEquals(data.value[TypeKey], TypeBufferSync) ==>
              if st.doc.Some? then r == Consumed(st.(needSync := false), [SyncMessage(st.doc.value)])
              else r == Consumed(st.(needSync := true), [])
    // Without a document, every other edit is consumed with no effect.
    ensures !r.NotConsumed? && !LooselyEquals(data.value[TypeKey], TypeBufferSync) && st.doc.None? ==>
              r == Consumed(st, [])
    // An edit of no known kind is consumed with no effect.
    ensures !r.NotConsumed? && UnknownType(data.value[TypeKey]) ==> r == Consumed(st, [])
    // Only a sync request posts anything or touches the sync mark.
    ensures r.Consumed? && !LooselyEquals(data.value[TypeKey], TypeBufferSync) ==>
              r.posted == [] && r.state.needSync == st.needSync && r.state.doc.Some? == st.doc.Some?
  {
    match data
    case None => NotConsumed
    case Some(m) =>
      if TypeKey !in m || !Truthy(m[TypeKey]) then NotConsumed
      else if LooselyEquals(m[TypeKey], TypeBufferSync) then
        match st.doc
        case Some(d) => Consumed(RtState(st.doc, false), [SyncMessage(d)])
        case None => Consumed(st.(needSync := true), [])
      else
        match st.doc
        case None => Consumed(st, [])
        case Some(d) =>
          match EditDocument(d, m)
          case Some(d') => Consumed(st.(doc := Some(d')), [])
          case None => Fault
  }

  /** A type field holding a kind's tag is that kind's and no other's. */
  lemma TagSelectsKind(t: CollabType)
    ensures Truthy(VStr(Codec.TypeName(t))) && !UnknownType(VStr(Codec.TypeName(t)))
    ensures LooselyEquals(VStr(Codec.TypeName(t)), TypeCursorMove) <==> t == CursorMove
    ensures LooselyEquals(VStr(Codec.TypeName(t)), TypeReplaceLine) <==> t == ReplaceLine
    ensures LooselyEquals(VStr(Codec.TypeName(t)), TypeAppendLine) <==> t == AppendLine
    ensures LooselyEquals(VStr(Codec.TypeName(t)), TypeRemoveLine) <==> t == RemoveLine
    ensures LooselyEquals(VStr(Codec.TypeName(t)), TypeInsertText) <==> t == InsertText
    ensures LooselyEquals(VStr(Codec.TypeName(t)), TypeDeleteText) <==> t == DeleteText
    ensures LooselyEquals(VStr(Codec.TypeName(t)), TypeBufferSync) <==> t == BufferSync
  {
    TagsDistinct();
  }

  /**
   * applyLocalEdit carries out the edit a Vim message encodes exactly as the
   * edit's definition says: 1-based line L is list position L-1 for remove,
   * replace, insert and delete, an append goes to position L (after line L),
   * a delete removes [index, index + length). A position outside the list
   * or the line throws.
   */
  lemma EncodedLineEditApplies(st: RtState, e: Edit)
    requires st.doc.Some? && IsLineEdit(e.payload)
    ensures ApplyLocalEdit(st, Some(Codec.Encode(e))) ==
              match ApplyToLines(st.doc.value.lines, e.payload)
              case Some(lines) => Consumed(st.(doc := Some(st.doc.value.(lines := lines))), [])
              case None => Fault
  {
    var m := Codec.Encode(e);
    TagSelectsKind(TypeOf(e.payload));
    assert Truthy(m[TypeKey]) && !LooselyEquals(m[TypeKey], TypeBufferSync);
    EditDocumentOfEncoded(st.doc.value, e);
  }

  /** The document-level half of EncodedLineEditApplies. */
  lemma EditDocumentOfEncoded(d: RtDoc, e: Edit)
    requires IsLineEdit(e.payload)
    ensures EditDocument(d, Codec.Encode(e)) ==
              match ApplyToLines(d.lines, e.payload)
              case Some(lines) => Some(d.(lines := lines))
              case None => None
  {
    match e.payload
    case AppendLineData(line, text) => AppendDocumentOfEncoded(d, e.bufId, line, text);
    case RemoveLineData(line) => RemoveDocumentOfEncoded(d, e.bufId, line);
    case ReplaceLineData(line, text) => ReplaceDocumentOfEncoded(d, e.bufId, line, text);
    case InsertTextData(line, index, text) => InsertTextDocumentOfEncoded(d, e.bufId, line, index, text);
    case DeleteTextData(line, index, length) => DeleteTextDocumentOfEncoded(d, e.bufId, line, index, length);
  }

  lemma AppendDocumentOfEncoded(d: RtDoc, bufId: int, line: int, text: string)
    ensures EditDocument(d, Codec.Encode(Edit(bufId, AppendLineData(line, text)))) ==
              match ApplyToLines(d.lines, AppendLineData(line, text))
              case Some(lines) => Some(d.(lines := lines))
              case None => None
  {
    var m := Codec.Encode(Edit(bufId, AppendLineData(line, text)));
    TagSelectsKind(AppendLine);
    assert IntAt(m, LineKey) == Some(line) && StrAt(m, TextKey) == Some(text);
  }

  lemma RemoveDocumentOfEncoded(d: RtDoc, bufId: int, line: int)
    ensures EditDocument(d, Codec.Encode(Edit(bufId, RemoveLineData(line)))) ==
              match ApplyToLines(d.lines, RemoveLineData(line))
              case Some(lines) => Some(d.(lines := lines))
              case None => None
  {
    var m := Codec.Encode(Edit(bufId, RemoveLineData(line)));
    TagSelectsKind(RemoveLine);
    assert IntAt(m, LineKey) == Some(line);
  }

  lemma ReplaceDocumentOfEncoded(d: RtDoc, bufId: int, line: int, text: string)
    ensures EditDocument(d, Codec.Encode(Edit(bufId, ReplaceLineData(line, text)))) ==
              match ApplyToLines(d.lines, ReplaceLineData(line, text))
              case Some(lines) => Some(d.(lines := lines))
              case None => None
  {
    var m := Codec.Encode(Edit(bufId, ReplaceLineData(line, text)));
    TagSelectsKind(ReplaceLine);
    assert IntAt(m, LineKey) == Some(line) && StrAt(m, TextKey) == Some(text);
  }

  lemma InsertTextDocumentOfEncoded(d: RtDoc, bufId: int, line: int, index: int, text: string)
    ensures EditDocument(d, Codec.Encode(Edit(bufId, InsertTextData(line, index, text)))) ==
              match ApplyToLines(d.lines, InsertTextData(line, index, text))
              case Some(lines) => Some(d.(lines := lines))
              case None => None
  {
    var m := Codec.Encode(Edit(bufId, InsertTextData(line, index, text)));
    TagSelectsKind(InsertText);
    assert IntAt(m, LineKey) == Some(line) && IntAt(m, IndexKey) == Some(index);
    assert StrAt(m, TextKey) == Some(text);
  }

  lemma DeleteTextDocumentOfEncoded(d: RtDoc, bufId: int, line: int, index: int, length: nat)
    ensures EditDocument(d, Codec.Encode(Edit(bufId, DeleteTextData(line, index, length)))) ==
              match ApplyToLines(d.lines, DeleteTextData(line, index, length))
              case Some(lines) => Some(d.(lines := lines))
              case None => None
  {
    var m := Codec.Encode(Edit(bufId, DeleteTextData(line, index, length)));
    TagSelectsKind(DeleteText);
    assert IntAt(m, LineKey) == Some(line) && IntAt(m, IndexKey) == Some(index);
    assert IntAt(m, LengthKey) == Some(length);
  }

  // ----- syncModel -----

  /**
   * syncModel(rtdoc): build the buffer-sync message, copying each line's
   * text into a new array, and clear needSync.
   */
  method SyncModel(st: RtState, d: RtDoc) returns (msg: Message, st': RtState)
    ensures msg == SyncMessage(d)
    ensures st' == st.(needSync := false)
  {
    var lines := new string[|d.lines|];
    for i := 0 to |d.lines|
      invariant forall k :: 0 <= k < i ==> lines[k] == d.lines[k]
    {
      lines[i] := d.lines[i];
    }
    assert lines[..] == d.lines;
    msg := map[TypeKey := VStr(TypeBufferSync), BufIdKey := VInt(0),
               FilenameKey := VStr(SyncFilename), LinesKey := VList(lines[..])];
    st' := st.(needSync := false);
  }

  /**
   * The sync message is the encoding of a buffer sync of buffer 0 whose
   * lines are the document's lines in order, and the model's decoder accepts it.
   */
  lemma SyncMessageDecodes(d: RtDoc)
    ensures SyncMessage(d) == Codec.Encode(Edit(0, BufferSyncData(SyncFilename, |d.lines|, d.lines)))
    ensures Codec.Decode(SyncMessage(d)) == Some(Edit(0, BufferSyncData(SyncFilename, |d.lines|, d.lines)))
  {
    Codec.DecodeEncode(Edit(0, BufferSyncData(SyncFilename, |d.lines|, d.lines)));
  }

  // ----- onCursorChanged -----

  /** A change of one entry of the cursor map. */
  datatype CursorEvent = CursorEvent(isLocal: bool, property: string, newValue: string)

  /** parseInt(s) as a field value: NaN when no digits lead the text. */
  function ParsedValue(s: string): Value
  {
    match ParseInt(s)
    case Some(n) => VInt(n)
    case None => VNaN
  }

  /** onCursorChanged(ev): a remote user's cursor text split back into line and column. */
  function OnCursorChanged(ev: CursorEvent): (msgs: seq<Message>)
    ensures ev.isLocal <==> msgs == []
    ensures |msgs| <= 1
  {
    if ev.isLocal then []
    else
      var pos := Split(ev.newValue, ',');
      [map[TypeKey := VStr(TypeCursorMove), BufIdKey := VInt(0), UserIdKey := VStr(ev.property),
           LineKey := ParsedValue(pos[0]),
           ColumnKey := ParsedValue(if |pos| > 1 then pos[1] else "undefined")]]
  }

  /** The text of a position, "line,column", as applyLocalEdit stores it. */
  function PositionText(pos: Pos): string
  {
    IntToString(pos.lnum) + "," + IntToString(pos.col)
  }

  /**
   * A Vim cursor move is consumed without posting anything and stores the
   * move's position text under the local user's id, leaving the lines alone.
   */
  lemma CursorMoveStoresPosition(st: RtState, bufId: int, userId: string, pos: Pos)
    requires st.doc.Some?
    ensures var d := st.doc.value;
            ApplyLocalEdit(st, Some(Codec.Encode(Edit(bufId, CursorMoveData(userId, pos)))))
              == Consumed(st.(doc := Some(d.(cursors := d.cursors[LocalUserId(d.collaborators) := PositionText(pos)]))), [])
  {
    var m := Codec.Encode(Edit(bufId, CursorMoveData(userId, pos)));
    TagSelectsKind(CursorMove);
    assert m[LineKey] == VInt(pos.lnum) && m[ColumnKey] == VInt(pos.col);
    assert CursorText(m) == PositionText(pos);
  }

  /** onCursorChanged parses a stored position text back into the same line and column. */
  lemma CursorChangeParsesPosition(userId: string, pos: Pos)
    ensures OnCursorChanged(CursorEvent(false, userId, PositionText(pos)))
            == [Codec.Encode(Edit(0, CursorMoveData(userId, pos)))]
  {
    var lineText := IntToString(pos.lnum);
    var colText := IntToString(pos.col);
    assert ',' !in lineText && ',' !in colText;
    assert PositionText(pos) == lineText + [','] + colText;
    SplitAtFirstSeparator(lineText, colText, ',');
    SplitWithoutSeparator(colText, ',');
    ParseIntOfIntToString(pos.lnum);
    ParseIntOfIntToString(pos.col);
    assert Split(PositionText(pos), ',') == [lineText, colText];
  }

  /**
   * The cursor round trip: when this side stores the local user's cursor
   * from a Vim cursor move, the other side's onCursorChanged on that stored
   * text rebuilds the same position for that user, and the model's
   * decoder accepts the result whenever the move itself was well formed.
   */
  lemma CursorRoundTrip(st: RtState, bufId: int, userId: string, pos: Pos)
    requires st.doc.Some?
    ensures var d := st.doc.value;
            var me := LocalUserId(d.collaborators);
            var h := ApplyLocalEdit(st, Some(Codec.Encode(Edit(bufId, CursorMoveData(userId, pos)))));
            && h.Consumed? && h.posted == [] && h.state.doc.Some?
            && h.state.doc.value.lines == d.lines
            && me in h.state.doc.value.cursors
            && OnCursorChanged(CursorEvent(false, me, h.state.doc.value.cursors[me]))
               == [Codec.Encode(Edit(0, CursorMoveData(me, pos)))]
            && (ValidUserId(me) && pos.lnum >= 1 && pos.col >= 0 ==>
                  Codec.Decode(OnCursorChanged(CursorEvent(false, me, h.state.doc.value.cursors[me]))[0])
                  == Some(Edit(0, CursorMoveData(me, pos))))
  {
    var me := LocalUserId(st.doc.value.collaborators);
    CursorMoveStoresPosition(st, bufId, userId, pos);
    CursorChangeParsesPosition(me, pos);
    if ValidUserId(me) && pos.lnum >= 1 && pos.col >= 0 {
      Codec.DecodeEncode(Edit(0, CursorMoveData(me, pos)));
    }
  }

  // ----- onLineAdded and onLineRemoved -----

  /** A ValuesAdded or ValuesRemoved event on the list of lines. */
  datatype ValuesEvent = ValuesEvent(isLocal: bool, index: int, values: seq<string>)

  /** The append_line message for a line that is now 0-based position `line`. */
  function AppendMessage(line: int, text: string): Message
  {
    map[TypeKey := VStr(TypeAppendLine), BufIdKey := VInt(0), LineKey := VInt(line), TextKey := VStr(text)]
  }

  /** One append per added value, with line index + k for the k-th value. */
  function AppendMessages(index: int, values: seq<string>): seq<Message>
  {
    seq(|values|, k requires 0 <= k < |values| => AppendMessage(index + k, values[k]))
  }

  /** The remove_line message for 1-based line `line`. */
  function RemoveMessage(line: int): Message
  {
    map[TypeKey := VStr(TypeRemoveLine), BufIdKey := VInt(0), LineKey := VInt(line)]
  }

  /** `count` removes, each of line index + 1: every removal shifts the next line up. */
  function RemoveMessages(index: int, count: nat): seq<Message>
  {
    seq(count, _ => RemoveMessage(index + 1))
  }

  /**
   * onLineAdded(ev): shift the cached indices from ev.index by the number of
   * added lines, then, for a remote change only, one append per added line.
   */
  method OnLineAdded(cache: IndexCache, ev: ValuesEvent) returns (msgs: seq<Message>)
    requires cache.Valid()
    modifies cache
    ensures cache.Valid()
    ensures ShiftedFrom(old(cache.indices), cache.indices, ev.index, |ev.values|)
    ensures cache.oldest == old(cache.oldest) && cache.cache == old(cache.cache)
    ensures msgs == if ev.isLocal then [] else AppendMessages(ev.index, ev.values)
  {
    var lines := ev.values;
    var lnum := ev.index;
    cache.ShiftFrom(lnum, |lines|);
    if ev.isLocal {
      return [];
    }
    msgs := [];
    for i := 0 to |lines|
      invariant |msgs| == i
      invariant forall k :: 0 <= k < i ==> msgs[k] == AppendMessage(lnum + k, lines[k])
    {
      msgs := msgs + [AppendMessage(lnum + i, lines[i])];
    }
  }

  /**
   * onLineRemoved(ev): shift the cached indices from ev.index by minus the
   * number of removed lines, then, for a remote change only, one remove per
   * removed line.
   */
  method OnLineRemoved(cache: IndexCache, ev: ValuesEvent) returns (msgs: seq<Message>)
    requires cache.Valid()
    modifies cache
    ensures cache.Valid()
    ensures ShiftedFrom(old(cache.indices), cache.indices, ev.index, -|ev.values|)
    ensures cache.oldest == old(cache.oldest) && cache.cache == old(cache.cache)
    ensures msgs == if ev.isLocal then [] else RemoveMessages(ev.index, |ev.values|)
  {
    var lnum := ev.index;
    cache.ShiftFrom(lnum, -|ev.values|);
    if ev.isLocal {
      return [];
    }
    msgs := [];
    for i := 0 to |ev.values|
      invariant |msgs| == i
      invariant forall k :: 0 <= k < i ==> msgs[k] == RemoveMessage(lnum + 1)
    {
      msgs := msgs + [RemoveMessage(lnum + 1)];
    }
  }

  /** Every added-line message is the encoding of an append of buffer 0 after line index + k. */
  lemma AppendMessagesEncode(index: int, values: seq<string>, k: int)
    requires 0 <= k < |values|
    ensures AppendMessages(index, values)[k] == Codec.Encode(Edit(0, AppendLineData(index + k, values[k])))
    ensures index >= 0 && NoTrailingNewline(values[k]) ==>
              Codec.Decode(AppendMessages(index, values)[k]) == Some(Edit(0, AppendLineData(index + k, values[k])))
  {
    if index >= 0 && NoTrailingNewline(values[k]) {
      Codec.DecodeEncode(Edit(0, AppendLineData(index + k, values[k])));
    }
  }

  /** Every removed-line message is the encoding of a removal of line index + 1 of buffer 0. */
  lemma RemoveMessagesEncode(index: int, count: nat, k: int)
    requires 0 <= k < count
    ensures RemoveMessages(index, count)[k] == Codec.Encode(Edit(0, RemoveLineData(index + 1)))
    ensures index >= 0 ==> Codec.Decode(RemoveMessages(index, count)[k]) == Some(Edit(0, RemoveLineData(index + 1)))
  {
    if index >= 0 {
      Codec.DecodeEncode(Edit(0, RemoveLineData(index + 1)));
    }
  }

  /** Apply each message of a batch with applyLocalEdit; None when one is not consumed or throws. */
  function ApplyAll(st: RtState, msgs: seq<Message>): Option<RtState>
    decreases |msgs|
  {
    if msgs == [] then Some(st)
    else
      match ApplyLocalEdit(st, Some(msgs[0]))
      case Consumed(next, _) => ApplyAll(next, msgs[1..])
      case _ => None
  }

  /** A batch whose first message is consumed continues from the state that message leaves. */
  lemma ApplyAllStep(st: RtState, msgs: seq<Message>, next: RtState)
    requires msgs != [] && ApplyLocalEdit(st, Some(msgs[0])).Consumed?
    requires ApplyLocalEdit(st, Some(msgs[0])).state == next
    ensures ApplyAll(st, msgs) == ApplyAll(next, msgs[1..])
  {
  }

  /** Dropping the first append of a batch leaves the batch for the remaining lines. */
  lemma AppendMessagesTail(index: int, values: seq<string>)
    requires values != []
    ensures AppendMessages(index, values)[1..] == AppendMessages(index + 1, values[1..])
  {
    var a := AppendMessages(index, values)[1..];
    var b := AppendMessages(index + 1, values[1..]);
    assert |a| == |b|;
    forall k | 0 <= k < |a|
      ensures a[k] == b[k]
    {
      assert a[k] == AppendMessage(index + k + 1, values[k + 1]);
    }
  }

  /** Inserting one value at `index` and then the rest just after it inserts them all. */
  lemma InsertOneThenRest(lines: seq<string>, index: int, values: seq<string>)
    requires 0 <= index <= |lines| && values != []
    ensures var lines1 := AppendAfter(lines, index, values[0]);
            lines1[..index + 1] + values[1..] + lines1[index + 1..] == lines[..index] + values + lines[index..]
  {
    var lines1 := AppendAfter(lines, index, values[0]);
    assert lines1[..index + 1] == lines[..index] + [values[0]];
    assert lines1[index + 1..] == lines[index..];
    assert [values[0]] + values[1..] == values;
  }

  /**
   * The appends built for n lines added at position i, applied in order to
   * the list as it was, insert exactly those lines at position i.
   */
  lemma {:induction false} AddedBatchReplays(st: RtState, index: int, values: seq<string>)
    requires st.doc.Some? && 0 <= index <= |st.doc.value.lines|
    ensures var d := st.doc.value;
            ApplyAll(st, AppendMessages(index, values))
              == Some(st.(doc := Some(d.(lines := d.lines[..index] + values + d.lines[index..]))))
    decreases |values|
  {
    var d := st.doc.value;
    var msgs := AppendMessages(index, values);
    if values == [] {
      assert d.lines[..index] + values + d.lines[index..] == d.lines;
      assert d == d.(lines := d.lines);
    } else {
      AppendMessagesEncode(index, values, 0);
      EncodedLineEditApplies(st, Edit(0, AppendLineData(index, values[0])));
      var lines1 := AppendAfter(d.lines, index, values[0]);
      var st1 := st.(doc := Some(d.(lines := lines1)));
      ApplyAllStep(st, msgs, st1);
      AppendMessagesTail(index, values);
      AddedBatchReplays(st1, index + 1, values[1..]);
      InsertOneThenRest(d.lines, index, values);
    }
  }

  /**
   * The removes built for n lines removed at position i, applied in order to
   * the list as it was, remove exactly positions i .. i+n-1.
   */
  lemma {:induction false} RemovedBatchReplays(st: RtState, index: int, count: nat)
    requires st.doc.Some? && 0 <= index && index + count <= |st.doc.value.lines|
    ensures var d := st.doc.value;
            ApplyAll(st, RemoveMessages(index, count))
              == Some(st.(doc := Some(d.(lines := d.lines[..index] + d.lines[index + count..]))))
    decreases count
  {
    var d := st.doc.value;
    var msgs := RemoveMessages(index, count);
    if count == 0 {
      assert d.lines[..index] + d.lines[index..] == d.lines;
      assert d == d.(lines := d.lines);
    } else {
      RemoveMessagesEncode(index, count, 0);
      EncodedLineEditApplies(st, Edit(0, RemoveLineData(index + 1)));
      var lines1 := RemoveLineAt(d.lines, index + 1);
      var st1 := st.(doc := Some(d.(lines := lines1)));
      assert msgs[1..] == RemoveMessages(index, count - 1);
      ApplyAllStep(st, msgs, st1);
      RemovedBatchReplays(st1, index, count - 1);
      assert lines1[..index] == d.lines[..index];
      assert lines1[index + count - 1..] == d.lines[index + count..];
    }
  }

  // ----- onTextInserted and onTextDeleted -----

  /** A TextInserted or TextDeleted event on one line's string. */
  datatype TextEvent = TextEvent(isLocal: bool, index: int, text: string)

  /** lnum + 1: the 1-based line of a looked-up position; undefined + 1 is NaN. */
  function LineValue(lnum: Option<int>): Value
  {
    match lnum
    case Some(n) => VInt(n + 1)
    case None => VNaN
  }

  function InsertTextMessage(line: Value, index: int, text: string): Message
  {
    map[TypeKey := VStr(TypeInsertText), BufIdKey := VInt(0), LineKey := line,
        IndexKey := VInt(index), TextKey := VStr(text)]
  }

  function DeleteTextMessage(line: Value, index: int, length: int): Message
  {
    map[TypeKey := VStr(TypeDeleteText), BufIdKey := VInt(0), LineKey := line,
        IndexKey := VInt(index), LengthKey := VInt(length)]
  }

  /**
   * onTextInserted(ev) on the string of line `line`: for a remote change
   * only, look the line up in the cache and build one insert_text message.
   * `lnum` is the lookup's result (None for a local change).
   */
  method OnTextInserted(cache: IndexCache, source: seq<LineId>, line: LineId, ev: TextEvent)
    returns (lnum: Option<int>, msgs: seq<Message>)
    requires cache.Valid()
    modifies cache, cache.cache
    ensures cache.Valid()
    ensures ev.isLocal ==> lnum == None && msgs == [] && cache.indices == old(cache.indices)
    ensures !ev.isLocal ==> msgs == [InsertTextMessage(LineValue(lnum), ev.index, ev.text)]
    ensures cache.cache == old(cache.cache)
    ensures ev.isLocal || line in old(cache.indices) || line !in source ==>
              && cache.indices == old(cache.indices)
              && cache.oldest == old(cache.oldest)
              && cache.cache[..] == old(cache.cache[..])
    ensures !ev.isLocal && line !in old(cache.indices) && line in source ==>
              && cache.cache[..] == old(cache.cache[..])[old(cache.oldest) := Some(line)]
              && cache.indices == (if old(cache.cache[cache.oldest]).Some?
                                   then old(cache.indices) - {old(cache.cache[cache.oldest]).value}
                                   else old(cache.indices))[line := PositionOf(source, line)]
              && cache.oldest == (old(cache.oldest) + 1) % cache.cache.Length
    ensures !ev.isLocal && line in old(cache.indices) ==> lnum == Some(old(cache.indices)[line])
    ensures !ev.isLocal && line !in old(cache.indices) ==>
              lnum == (if line in source then Some(PositionOf(source, line)) else None)
    ensures !ev.isLocal && Coherent(old(cache.indices), source) ==>
              && Coherent(cache.indices, source)
              && (lnum.Some? <==> line in source)
              && (lnum.Some? ==> 0 <= lnum.value < |source| && source[lnum.value] == line)
  {
    if ev.isLocal {
      return None, [];
    }
    lnum := cache.IndexOf(source, line);
    msgs := [InsertTextMessage(LineValue(lnum), ev.index, ev.text)];
  }

  /**
   * onTextDeleted(ev) on the string of line `line`: as onTextInserted, with
   * one delete_text message whose length is that of the deleted text.
   */
  method OnTextDeleted(cache: IndexCache, source: seq<LineId>, line: LineId, ev: TextEvent)
    returns (lnum: Option<int>, msgs: seq<Message>)
    requires cache.Valid()
    modifies cache, cache.cache
    ensures cache.Valid()
    ensures ev.isLocal ==> lnum == None && msgs == [] && cache.indices == old(cache.indices)
    ensures !ev.isLocal ==> msgs == [DeleteTextMessage(LineValue(lnum), ev.index, |ev.text|)]
    ensures cache.cache == old(cache.cache)
    ensures ev.isLocal || line in old(cache.indices) || line !in source ==>
              && cache.indices == old(cache.indices)
              && cache.oldest == old(cache.oldest)
              && cache.cache[..] == old(cache.cache[..])
    ensures !ev.isLocal && line !in old(cache.indices) && line in source ==>
              && cache.cache[..] == old(cache.cache[..])[old(cache.oldest) := Some(line)]
              && cache.indices == (if old(cache.cache[cache.oldest]).Some?
                                   then old(cache.indices) - {old(cache.cache[cache.oldest]).value}
                                   else old(cache.indices))[line := PositionOf(source, line)]
              && cache.oldest == (old(cache.oldest) + 1) % cache.cache.Length
    ensures !ev.isLocal && line in old(cache.indices) ==> lnum == Some(old(cache.indices)[line])
    ensures !ev.isLocal && line !in old(cache.indices) ==>
              lnum == (if line in source then Some(PositionOf(source, line)) else None)
    ensures !ev.isLocal && Coherent(old(cache.indices), source) ==>
              && Coherent(cache.indices, source)
              && (lnum.Some? <==> line in source)
              && (lnum.Some? ==> 0 <= lnum.value < |source| && source[lnum.value] == line)
  {
    if ev.isLocal {
      return None, [];
    }
    lnum := cache.IndexOf(source, line);
    msgs := [DeleteTextMessage(LineValue(lnum), ev.index, |ev.text|)];
  }

  /**
   * An insert_text message for a found line is the encoding of the insert
   * into 1-based line p + 1 and is accepted by the model's decoder; one for
   * a line the cache could not find carries NaN, and the model's decoder
   * rejects it.
   */
  lemma InsertTextMessageDecodes(lnum: Option<int>, index: int, text: string)
    ensures lnum.Some? ==>
              InsertTextMessage(LineValue(lnum), index, text)
              == Codec.Encode(Edit(0, InsertTextData(lnum.value + 1, index, text)))
    ensures lnum.Some? && lnum.value >= 0 && index >= 0 ==>
              Codec.Decode(InsertTextMessage(LineValue(lnum), index, text)) == Some(Edit(0, InsertTextData(lnum.value + 1, index, text)))
    ensures lnum.None? ==> Codec.Decode(InsertTextMessage(LineValue(lnum), index, text)) == None
  {
    var m := InsertTextMessage(LineValue(lnum), index, text);
    Codec.TypeFromNameOfTypeName(InsertText);
    assert StrAt(m, TypeKey) == Some(TypeInsertText) && IntAt(m, BufIdKey) == Some(0);
    if lnum.None? {
      assert IntAt(m, LineKey) == None;
    } else if lnum.value >= 0 && index >= 0 {
      Codec.DecodeEncode(Edit(0, InsertTextData(lnum.value + 1, index, text)));
    }
  }

  /**
   * A delete_text message for a found line is the encoding of the deletion
   * of |text| characters at `index` of line p + 1 and is accepted by the
   * model's decoder; one for a line the cache could not find is rejected by
   * the model's decoder.
   */
  lemma DeleteTextMessageDecodes(lnum: Option<int>, index: int, text: string)
    ensures lnum.Some? ==>
              DeleteTextMessage(LineValue(lnum), index, |text|)
              == Codec.Encode(Edit(0, DeleteTextData(lnum.value + 1, index, |text|)))
    ensures lnum.Some? && lnum.value >= 0 && index >= 0 ==>
              Codec.Decode(DeleteTextMessage(LineValue(lnum), index, |text|)) == Some(Edit(0, DeleteTextData(lnum.value + 1, index, |text|)))
    ensures lnum.None? ==> Codec.Decode(DeleteTextMessage(LineValue(lnum), index, |text|)) == None
  {
    var m := DeleteTextMessage(LineValue(lnum), index, |text|);
    Codec.TypeFromNameOfTypeName(DeleteText);
    assert StrAt(m, TypeKey) == Some(TypeDeleteText) && IntAt(m, BufIdKey) == Some(0);
    if lnum.None? {
      assert IntAt(m, LineKey) == None;
    } else if lnum.value >= 0 && index >= 0 {
      Codec.DecodeEncode(Edit(0, DeleteTextData(lnum.value + 1, index, |text|)));
    }
  }
}
