/**
 * The collaborative edit data model of Vim (collab_structs.h): the edit type
 * tag, the tagged union of payloads, and the validity conditions that the
 * field comments place on each payload.
 *
 * Line numbers are 1-based (line 1 is the first line); columns and indices
 * are 0-based character positions.
 */
module CollabStructs {
  import opened Wrappers

  /** collabtype_T: the seven kinds of collaborative edit. */
  datatype CollabType =
    | CursorMove | AppendLine | InsertText | RemoveLine
    | DeleteText | BufferSync | ReplaceLine

  /** The line and column of pos_T that a cursor move carries. */
  datatype Pos = Pos(lnum: int, col: int)

  /**
   * The union inside collabedit_T. Each constructor holds exactly the fields
   * of one union member, so an edit of one kind cannot carry another kind's
   * fields.
   */
  datatype Payload =
    | AppendLineData(line: int, text: string)
    | InsertTextData(line: int, index: int, text: string)
    | RemoveLineData(line: int)
    | DeleteTextData(line: int, index: int, length: nat)
    | ReplaceLineData(line: int, text: string)
    | BufferSyncData(filename: string, nlines: int, lines: seq<string>)
    | CursorMoveData(userId: string, pos: Pos)

  /** collabedit_T: the buffer the edit applies to and its payload. */
  datatype Edit = Edit(bufId: int, payload: Payload)

  /** The value of collabedit_T's type field, which selects the union member. */
  function TypeOf(p: Payload): (r: CollabType)
    ensures r == AppendLine <==> p.AppendLineData?
    ensures r == InsertText <==> p.InsertTextData?
    ensures r == RemoveLine <==> p.RemoveLineData?
    ensures r == DeleteText <==> p.DeleteTextData?
    ensures r == ReplaceLine <==> p.ReplaceLineData?
    ensures r == BufferSync <==> p.BufferSyncData?
    ensures r == CursorMove <==> p.CursorMoveData?
  {
    match p
    case AppendLineData(_, _) => AppendLine
    case InsertTextData(_, _, _) => InsertText
    case RemoveLineData(_) => RemoveLine
    case DeleteTextData(_, _, _) => DeleteText
    case ReplaceLineData(_, _) => ReplaceLine
    case BufferSyncData(_, _, _) => BufferSync
    case CursorMoveData(_, _) => CursorMove
  }

  /** Append and replace texts "shouldn't end with a newline". */
  predicate NoTrailingNewline(s: string)
  {
    |s| == 0 || s[|s| - 1] != '\n'
  }

  /** A character of the user id alphabet [a-zA-Z0-9_]. */
  predicate IsUserIdChar(c: char)
  {
    ('a' <= c <= 'z') || ('A' <= c <= 'Z') || ('0' <= c <= '9') || c == '_'
  }

  predicate ValidUserId(s: string)
  {
    forall i :: 0 <= i < |s| ==> IsUserIdChar(s[i])
  }

  /** The conditions the field comments of collabedit_T place on each payload. */
  predicate ValidPayload(p: Payload)
  {
    match p
    case AppendLineData(line, text) => line >= 0 && NoTrailingNewline(text)
    case InsertTextData(line, index, _) => line >= 1 && index >= 0
    case RemoveLineData(line) => line >= 1
    case DeleteTextData(line, index, _) => line >= 1 && index >= 0
    case ReplaceLineData(line, text) => line >= 1 && NoTrailingNewline(text)
    case BufferSyncData(_, nlines, lines) => nlines == |lines|
    case CursorMoveData(userId, pos) => ValidUserId(userId) && pos.lnum >= 1 && pos.col >= 0
  }

  predicate ValidEdit(e: Edit)
  {
    ValidPayload(e.payload)
  }

  /**
   * The document after appending `text` after 1-based line `after`, where
   * line 0 means "before the first line". The new line becomes line after+1.
   */
  function AppendAfter(lines: seq<string>, after: int, text: string): (r: seq<string>)
    requires 0 <= after <= |lines|
    ensures |r| == |lines| + 1
    ensures r[after] == text
    ensures after == 0 ==> r[0] == text && r[1..] == lines
    ensures forall k :: 0 <= k < after ==> r[k] == lines[k]
    ensures forall k :: after < k < |r| ==> r[k] == lines[k - 1]
  {
    lines[..after] + [text] + lines[after..]
  }

  /** The document after removing 1-based line `line`. */
  function RemoveLineAt(lines: seq<string>, line: int): (r: seq<string>)
    requires 1 <= line <= |lines|
    ensures |r| == |lines| - 1
    ensures forall k :: 0 <= k < line - 1 ==> r[k] == lines[k]
    ensures forall k :: line - 1 <= k < |r| ==> r[k] == lines[k + 1]
  {
    lines[..line - 1] + lines[line..]
  }

  /** A line after inserting `text` before 0-based character `index`. */
  function InsertTextAt(s: string, index: int, text: string): (r: string)
    requires 0 <= index <= |s|
    ensures |r| == |s| + |text|
    ensures r[..index] == s[..index]
    ensures r[index..index + |text|] == text
    ensures r[index + |text|..] == s[index..]
  {
    s[..index] + text + s[index..]
  }

  /** A line after deleting the characters [index, index + length). */
  function DeleteTextAt(s: string, index: int, length: int): (r: string)
    requires 0 <= index && 0 <= length && index + length <= |s|
    ensures |r| == |s| - length
    ensures r[..index] == s[..index]
    ensures r[index..] == s[index + length..]
  {
    s[..index] + s[index + length..]
  }

  /** The edits that change the lines of a buffer (not a sync, not a cursor move). */
  predicate IsLineEdit(p: Payload)
  {
    !p.BufferSyncData? && !p.CursorMoveData?
  }

  /**
   * What a line edit does to a buffer's lines, as the field comments of
   * collabedit_T describe it, or None when its position lies outside them:
   * append after 1-based line `line` (0 means a new first line), remove or
   * replace 1-based line `line`, insert before or delete from 0-based
   * character `index` of 1-based line `line`.
   */
  function ApplyToLines(lines: seq<string>, p: Payload): (r: Option<seq<string>>)
    requires IsLineEdit(p)
    ensures r.Some? && p.AppendLineData? ==>
              0 <= p.line <= |lines| && |r.value| == |lines| + 1 && r.value[p.line] == p.text
    ensures r.Some? && p.RemoveLineData? ==> 1 <= p.line <= |lines| && |r.value| == |lines| - 1
    ensures r.Some? && !p.AppendLineData? && !p.RemoveLineData? ==>
              |r.value| == |lines| && 1 <= p.line <= |lines|
              && forall k :: 0 <= k < |lines| && k != p.line - 1 ==> r.value[k] == lines[k]
    ensures r.Some? && p.ReplaceLineData? ==> r.value[p.line - 1] == p.text
  {
    match p
    case AppendLineData(line, text) =>
      if 0 <= line <= |lines| then Some(AppendAfter(lines, line, text)) else None
    case RemoveLineData(line) =>
      if 1 <= line <= |lines| then Some(RemoveLineAt(lines, line)) else None
    case ReplaceLineData(line, text) =>
      if 1 <= line <= |lines| then Some(lines[line - 1 := text]) else None
    case InsertTextData(line, index, text) =>
      if 1 <= line <= |lines| && 0 <= index <= |lines[line - 1]|
      then Some(lines[line - 1 := InsertTextAt(lines[line - 1], index, text)])
      else None
    case DeleteTextData(line, index, length) =>
      if 1 <= line <= |lines| && 0 <= index && index + length <= |lines[line - 1]|
      then Some(lines[line - 1 := DeleteTextAt(lines[line - 1], index, length)])
      else None
  }

  /** Inserting text and then deleting exactly that text restores the line. */
  lemma DeleteUndoesInsert(s: string, index: int, text: string)
    requires 0 <= index <= |s|
    ensures DeleteTextAt(InsertTextAt(s, index, text), index, |text|) == s
  {
    var t := InsertTextAt(s, index, text);
    assert t[index + |text|..] == s[index..];
    assert t[..index] + t[index + |text|..] == s[..index] + s[index..];
    assert s[..index] + s[index..] == s;
  }
}
