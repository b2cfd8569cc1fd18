/** The JavaScript side's values: what a parsed CSV row and the decoded analysis rows hold, the
    truthiness and string conversion the viewers rely on, `split` and the header-to-row zip. */
module Js {
  import opened Wrappers
  import opened Strings

  /** A JavaScript value as the viewers meet it: `undefined`, a string, an array of strings, or a
      plain object whose entries are kept in insertion order. */
  datatype JsValue = Undefined | Str(s: string) | Arr(items: seq<string>) | Obj(entries: seq<(string, JsValue)>)

  /** A row object, property name to value. */
  type JsRow = map<string, JsValue>

  /** The exceptions the modelled code throws. */
  datatype JsError = TypeError | InvalidAnalysisDictError

  /** `row[key]`: a missing property reads as `undefined`. */
  function Get(row: JsRow, key: string): JsValue {
    if key in row then row[key] else Undefined
  }

  /** JavaScript truthiness: only `undefined` and the empty string are falsy here. */
  predicate Truthy(v: JsValue) {
    match v
    case Undefined => false
    case Str(s) => s != ""
    case Arr(_) => true
    case Obj(_) => true
  }

  /** `String(v)`, as a template literal or `endsWith` converts its argument. */
  function ToString(v: JsValue): string {
    match v
    case Undefined => "undefined"
    case Str(s) => s
    case Arr(items) => Join(",", items)
    case Obj(_) => "[object Object]"
  }

  /** The characters of `s`, each as a one-character string. */
  function Chars(s: string): (r: seq<string>)
    ensures |r| == |s|
  {
    seq(|s|, i requires 0 <= i < |s| => [s[i]])
  }

  /** `s.split(sep)`: an empty separator splits into characters (`"".split("")` is `[]`),
      otherwise as Python's split. */
  function JsSplit(s: string, sep: string): (r: seq<string>)
    ensures sep != "" ==> Join(sep, r) == s && |r| >= 1
    ensures sep == "" ==> |r| == |s| && forall i :: 0 <= i < |s| ==> r[i] == [s[i]]
  {
    if sep == "" then Chars(s)
    else
      JoinSplit(s, sep);
      Split(s, sep)
  }

  /** `obj[key] = v` on an object: an existing key keeps its place and takes the new value, a new
      key is appended. */
  function Assign(entries: seq<(string, JsValue)>, key: string, v: JsValue): (r: seq<(string, JsValue)>)
    ensures (key, v) in r
    ensures forall k :: 0 <= k < |r| ==> r[k] == (key, v) || r[k] in entries
    ensures forall j :: 0 <= j < |entries| && entries[j].0 != key ==> entries[j] in r
  {
    if entries == [] then [(key, v)]
    else if entries[0].0 == key then [(key, v)] + entries[1..]
    else
      var rest := Assign(entries[1..], key, v);
      assert forall j :: 1 <= j < |entries| ==> entries[j] == entries[1..][j - 1];
      [entries[0]] + rest
  }

  /** The zip of `uploadFile` and `loadAnalysisFile`: `header.reduce((acc, name, i) => { acc[name]
      = row[i]; return acc }, {})`. A cell past the end of a short row is `undefined`. */
  function ZipRow(header: seq<string>, cells: seq<string>): JsRow
    decreases |header|
  {
    if header == [] then map[]
    else
      var n := |header| - 1;
      ZipRow(header[..n], cells)[header[n] := if n < |cells| then Str(cells[n]) else Undefined]
  }

  /** The cell `ZipRow` stores under column index `i`. */
  function Cell(cells: seq<string>, i: nat): JsValue {
    if i < |cells| then Str(cells[i]) else Undefined
  }

  /** Every header name is a key; each key holds the cell of the LAST column with that name. */
  lemma {:induction false} ZipRowLastWins(header: seq<string>, cells: seq<string>, i: nat)
    requires i < |header|
    requires forall j :: i < j < |header| ==> header[j] != header[i]
    ensures header[i] in ZipRow(header, cells)
    ensures ZipRow(header, cells)[header[i]] == Cell(cells, i)
    decreases |header|
  {
    var n := |header| - 1;
    if i < n {
      ZipRowLastWins(header[..n], cells, i);
    }
  }

  /** The zip has no keys besides the header names. */
  lemma {:induction false} ZipRowKeys(header: seq<string>, cells: seq<string>)
    ensures forall k :: k in ZipRow(header, cells) <==> k in header
    decreases |header|
  {
    if header != [] {
      var n := |header| - 1;
      ZipRowKeys(header[..n], cells);
      assert header == header[..n] + [header[n]];
    }
  }

  /** A zipped cell is a string or `undefined`. */
  lemma {:induction false} ZipRowValues(header: seq<string>, cells: seq<string>, key: string)
    ensures Get(ZipRow(header, cells), key).Str? || Get(ZipRow(header, cells), key) == Undefined
    decreases |header|
  {
    if header != [] {
      ZipRowValues(header[..|header| - 1], cells, key);
    }
  }

  /** Papa's rows as objects: the first row is the header, every other row is zipped with it. */
  function ZipRows(data: seq<seq<string>>): (r: seq<JsRow>)
    ensures |data| >= 1 ==> |r| == |data| - 1
    ensures data == [] ==> r == []
    ensures forall i :: 0 <= i < |r| ==> r[i] == ZipRow(data[0], data[i + 1])
  {
    if data == [] then []
    else seq(|data| - 1, i requires 0 <= i < |data| - 1 => ZipRow(data[0], data[i + 1]))
  }
}
