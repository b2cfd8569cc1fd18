/** The Python side's values: option dictionaries, the values a CDE row holds, the exceptions the
    code raises, and the operations on them that several modules share. */
module Py {
  import opened Wrappers
  import opened Strings
  import opened Seqs

  /** An option value as callers pass it in an `options` dictionary. */
  datatype Opt = OStr(s: string) | ONum(n: real) | OList(items: seq<string>)

  type Options = map<string, Opt>

  /** A value in a CDE row: a string cell, a list of strings, or a dictionary of strings kept as an
      association list in insertion order (as a Python dict iterates). */
  datatype Value = Str(s: string) | List(items: seq<string>) | Dict(entries: seq<(string, string)>)

  /** One CDE row, column name to value. */
  type Row = map<string, Value>

  /** The exceptions the modelled code raises. `Raised` stands for an exception escaping a supplied
      capability (the NLP pipeline, a keyword model, a strategy's `categorize_field`). */
  datatype Error =
    | KeyError
    | TypeError
    | ValueError
    | AttributeError
    | IndexError
    | UnrecognizedGroupingMethod
    | UnsupportedExtension(path: string)
    | Raised

  /** `{**defaults, **options}`: every caller option overrides the default of the same key. */
  function MergeOptions(defaults: Options, options: Options): (r: Options)
    ensures r.Keys == defaults.Keys + options.Keys
    ensures forall k :: k in options ==> r[k] == options[k]
    ensures forall k :: k in defaults && k !in options ==> r[k] == defaults[k]
  {
    defaults + options
  }

  /** `dict(**defaults, **options)` (or explicit keywords followed by `**options`): a key given twice
      is a duplicate keyword argument and raises TypeError; otherwise the keys are just added. */
  function KeywordMerge(defaults: Options, options: Options): (r: Result<Options, Error>)
    ensures r.Failure? <==> exists k :: k in defaults && k in options
    ensures r.Failure? ==> r.error == TypeError
    ensures r.Success? ==> r.value.Keys == defaults.Keys + options.Keys
    ensures r.Success? ==> forall k :: k in defaults ==> r.value[k] == defaults[k]
    ensures r.Success? ==> forall k :: k in options ==> r.value[k] == options[k]
  {
    if defaults.Keys * options.Keys != {} then
      var k :| k in defaults.Keys * options.Keys;
      Failure(TypeError)
    else
      assert forall k :: k in defaults ==> k !in options by {
        forall k | k in defaults ensures k !in options {
          assert k !in defaults.Keys * options.Keys;
        }
      }
      Success(defaults + options)
  }

  /** `s.split(sep)`: an empty separator raises ValueError. */
  function PySplit(s: string, sep: string): (r: Result<seq<string>, Error>)
    ensures r.Failure? <==> sep == []
    ensures r.Failure? ==> r.error == ValueError
    ensures r.Success? ==> Join(sep, r.value) == s
  {
    if sep == [] then Failure(ValueError)
    else
      JoinSplit(s, sep);
      Success(Split(s, sep))
  }

  /** `fp.split(".")[-1]`, the text after the last dot (all of `fp` when it has none). */
  function Extension(fp: string): string {
    var pieces := Split(fp, ".");
    pieces[|pieces| - 1]
  }

  /** `r`, the last dot-free piece of `fp` (see `SplitLast`), is `"csv"` exactly when `fp` passes the
      extension test. */
  lemma LastPieceOfCsv(fp: string, r: string)
    requires LastCFree(fp, '.', r)
    ensures r == "csv" <==> fp == "csv" || EndsWith(fp, ".csv")
  {
    assert forall i :: 0 <= i < |r| ==> r[i] == fp[|fp| - |r| + i];
    if r == "csv" && |r| < |fp| {
      assert fp[|fp| - 4..] == [fp[|fp| - 4]] + r;
    }
    if fp == "csv" {
      assert forall i :: 0 <= i < |fp| ==> fp[i] != '.';
      assert |r| == |fp|;
    }
    if EndsWith(fp, ".csv") {
      assert fp[|fp| - 4] == '.' by {
        assert fp[|fp| - 4..][0] == '.';
      }
      assert forall i :: |fp| - 3 <= i < |fp| ==> fp[i] != '.' by {
        forall i | |fp| - 3 <= i < |fp| ensures fp[i] != '.' {
          assert fp[i] == fp[|fp| - 4..][i - (|fp| - 4)];
        }
      }
      var j := |fp| - |r|;
      assert forall i :: j <= i < |fp| ==> fp[i] != '.' by {
        forall i | j <= i < |fp| ensures fp[i] != '.' {
          assert fp[i] == r[i - j];
        }
      }
      assert |r| == 3;
      assert r == fp[|fp| - 3..];
    }
  }

  /** The extension test of `load` and `save`: it passes exactly for `"csv"` itself and for names
      ending in `".csv"`. */
  lemma ExtensionIsCsv(fp: string)
    ensures Extension(fp) == "csv" <==> fp == "csv" || EndsWith(fp, ".csv")
  {
    SplitLast(fp, '.');
    LastPieceOfCsv(fp, Extension(fp));
  }

  /** The elements Python's `sorted(v)` and `set(v)` iterate over: the characters of a string, the
      items of a list, the keys of a dict. */
  function Iterate(v: Value): (r: seq<string>)
    ensures v.List? ==> r == v.items
  {
    match v
    case Str(s) => seq(|s|, i requires 0 <= i < |s| => [s[i]])
    case List(items) => items
    case Dict(entries) => seq(|entries|, i requires 0 <= i < |entries| => entries[i].0)
  }

  /** The keys of an association list. */
  function Keys(entries: seq<(string, string)>): seq<string> {
    seq(|entries|, i requires 0 <= i < |entries| => entries[i].0)
  }

  /** `d[k] = v` on a dict: an existing key keeps its position and takes the new value, a new key
      is appended. */
  function Put(d: seq<(string, string)>, k: string, v: string): (r: seq<(string, string)>)
    ensures forall x :: x in Keys(r) <==> x in Keys(d) || x == k
    ensures NoDups(Keys(d)) ==> NoDups(Keys(r))
    ensures k !in Keys(d) ==> r == d + [(k, v)]
  {
    if d == [] then
      assert Keys([(k, v)]) == [k];
      [(k, v)]
    else
      assert Keys(d) == [d[0].0] + Keys(d[1..]);
      NoDupsCons(d[0].0, Keys(d[1..]));
      if d[0].0 == k then
        assert Keys([(k, v)] + d[1..]) == Keys(d);
        [(k, v)] + d[1..]
      else
        var t := Put(d[1..], k, v);
        assert Keys([d[0]] + t) == [d[0].0] + Keys(t);
        NoDupsCons(d[0].0, Keys(t));
        assert k !in Keys(d) ==> [d[0]] + t == d + [(k, v)];
        [d[0]] + t
  }

  /** `dict(pairs)` for a list of split segments: every segment must have exactly two parts (else
      ValueError); a repeated key overwrites the earlier value in place. */
  function DictFromPairs(pairs: seq<seq<string>>): (r: Result<seq<(string, string)>, Error>)
    ensures r.Failure? <==> exists i :: 0 <= i < |pairs| && |pairs[i]| != 2
    ensures r.Failure? ==> r.error == ValueError
    ensures r.Success? ==> NoDups(Keys(r.value))
    decreases |pairs|
  {
    if pairs == [] then Success([])
    else
      var init := pairs[..|pairs| - 1];
      var last := pairs[|pairs| - 1];
      assert forall i :: 0 <= i < |init| ==> init[i] == pairs[i];
      match DictFromPairs(init)
      case Failure(e) => Failure(e)
      case Success(d) =>
        if |last| != 2 then Failure(ValueError) else Success(Put(d, last[0], last[1]))
  }

  /** Dropping the last entry of a duplicate-free association list leaves one whose keys miss the
      dropped key. */
  lemma KeysInit(entries: seq<(string, string)>)
    requires entries != [] && NoDups(Keys(entries))
    ensures NoDups(Keys(entries[..|entries| - 1]))
    ensures entries[|entries| - 1].0 !in Keys(entries[..|entries| - 1])
  {
    var n := |entries| - 1;
    assert Keys(entries[..n]) == Keys(entries)[..n];
    assert Keys(entries)[n] == entries[n].0;
  }

  /** Each entry as the two-part segment `dict` reads it from. */
  function PairsOf(entries: seq<(string, string)>): (r: seq<seq<string>>)
    ensures |r| == |entries|
    ensures forall i :: 0 <= i < |entries| ==> r[i] == [entries[i].0, entries[i].1]
  {
    seq(|entries|, i requires 0 <= i < |entries| => [entries[i].0, entries[i].1])
  }

  /** One more two-part segment with a fresh key appends its entry to the dict. */
  lemma DictFromPairsAppend(pairs: seq<seq<string>>, d: seq<(string, string)>, k: string, v: string)
    requires DictFromPairs(pairs) == Success(d) && k !in Keys(d)
    ensures DictFromPairs(pairs + [[k, v]]) == Success(d + [(k, v)])
  {
    assert (pairs + [[k, v]])[..|pairs|] == pairs;
  }

  /** The segments of a list with one more entry. */
  lemma PairsOfSnoc(entries: seq<(string, string)>)
    requires entries != []
    ensures PairsOf(entries) == PairsOf(entries[..|entries| - 1]) + [[entries[|entries| - 1].0, entries[|entries| - 1].1]]
  {
    var n := |entries| - 1;
    var p, q := PairsOf(entries), PairsOf(entries[..n]);
    assert forall i :: 0 <= i < n ==> p[i] == q[i];
  }

  /** With distinct keys, building a dict from pairs keeps every pair, in order. */
  lemma {:induction false} DictFromDistinctPairs(entries: seq<(string, string)>)
    requires NoDups(Keys(entries))
    ensures DictFromPairs(PairsOf(entries)) == Success(entries)
    decreases |entries|
  {
    if entries != [] {
      var n := |entries| - 1;
      KeysInit(entries);
      PairsOfSnoc(entries);
      DictFromDistinctPairs(entries[..n]);
      DictFromPairsAppend(PairsOf(entries[..n]), entries[..n], entries[n].0, entries[n].1);
      assert entries == entries[..n] + [(entries[n].0, entries[n].1)];
    }
  }

  /** An entry's key is among the keys. */
  lemma KeyOfEntry(d: seq<(string, string)>, e: (string, string))
    requires e in d
    ensures e.0 in Keys(d)
  {
    var i :| 0 <= i < |d| && d[i] == e;
    assert Keys(d)[i] == e.0;
  }

  /** `d[k] = v` keeps the key order: a new key goes last, an existing one stays where it was. */
  lemma PutKeys(d: seq<(string, string)>, k: string, v: string)
    ensures Keys(Put(d, k, v)) == if k in Keys(d) then Keys(d) else Keys(d) + [k]
  {
    if k in Keys(d) {
      PutExistingKeys(d, k, v);
    } else {
      assert Keys(d + [(k, v)]) == Keys(d) + [k];
    }
  }

  /** Writing an existing key leaves the keys as they were. */
  lemma {:induction false} PutExistingKeys(d: seq<(string, string)>, k: string, v: string)
    requires k in Keys(d)
    ensures Keys(Put(d, k, v)) == Keys(d)
    decreases |d|
  {
    var tail := Keys(d[1..]);
    assert Keys(d) == [d[0].0] + tail;
    if d[0].0 == k {
      assert Keys([(k, v)] + d[1..]) == Keys(d);
    } else {
      var t := Put(d[1..], k, v);
      assert Put(d, k, v) == [d[0]] + t;
      PutExistingKeys(d[1..], k, v);
      assert Keys([d[0]] + t) == [d[0].0] + Keys(t);
    }
  }

  /** `d[k] = v` on a dict with distinct keys: afterwards `k` holds `v`, every entry of another
      key is kept, and there is no other entry. */
  lemma {:induction false} PutEntries(d: seq<(string, string)>, k: string, v: string)
    requires NoDups(Keys(d))
    ensures (k, v) in Put(d, k, v)
    ensures forall e :: e in d && e.0 != k ==> e in Put(d, k, v)
    ensures forall e :: e in Put(d, k, v) ==> e == (k, v) || (e in d && e.0 != k)
    decreases |d|
  {
    if d != [] {
      assert Keys(d) == [d[0].0] + Keys(d[1..]);
      NoDupsCons(d[0].0, Keys(d[1..]));
      forall e | e in d[1..] ensures e.0 != d[0].0 {
        KeyOfEntry(d[1..], e);
      }
      if d[0].0 != k {
        PutEntries(d[1..], k, v);
      }
    }
  }

  /** The first part of every segment. */
  function Heads(pairs: seq<seq<string>>): (r: seq<string>)
    requires forall i :: 0 <= i < |pairs| ==> pairs[i] != []
    ensures |r| == |pairs|
  {
    seq(|pairs|, i requires 0 <= i < |pairs| => pairs[i][0])
  }

  /** The keys of `dict(pairs)` are the segments' keys in order of first appearance, each once:
      a repeated key stays at the position where it first appeared. */
  lemma {:induction false} DictFromPairsOrder(pairs: seq<seq<string>>)
    requires DictFromPairs(pairs).Success?
    ensures Keys(DictFromPairs(pairs).value) == Dedup(Heads(pairs))
    decreases |pairs|
  {
    if pairs != [] {
      var n := |pairs| - 1;
      var init := pairs[..n];
      assert Heads(pairs) == Heads(init) + [pairs[n][0]];
      DictFromPairsOrder(init);
      DedupSnoc(Heads(init), pairs[n][0]);
      PutKeys(DictFromPairs(init).value, pairs[n][0], pairs[n][1]);
    }
  }

  /** The value `dict(pairs)` holds under `k`: the key is present exactly when some segment names
      it, and it holds the value of the last such segment. */
  lemma {:induction false} DictFromPairsLastWins(pairs: seq<seq<string>>, k: string)
    requires DictFromPairs(pairs).Success?
    ensures k in Keys(DictFromPairs(pairs).value) <==> exists i :: 0 <= i < |pairs| && pairs[i][0] == k
    ensures forall i :: 0 <= i < |pairs| && pairs[i][0] == k && (forall j :: i < j < |pairs| ==> pairs[j][0] != k) ==>
      (k, pairs[i][1]) in DictFromPairs(pairs).value
    decreases |pairs|
  {
    if pairs != [] {
      var n := |pairs| - 1;
      var init := pairs[..n];
      var prev := DictFromPairs(init).value;
      assert DictFromPairs(pairs).value == Put(prev, pairs[n][0], pairs[n][1]);
      DictFromPairsLastWins(init, k);
      PutKeys(prev, pairs[n][0], pairs[n][1]);
      PutEntries(prev, pairs[n][0], pairs[n][1]);
      LastWinsSnoc(pairs, init, k, prev, DictFromPairs(pairs).value);
    }
  }

  /** The step of `DictFromPairsLastWins`: one more two-part segment, written with `d[k] = v`. */
  lemma LastWinsSnoc(pairs: seq<seq<string>>, init: seq<seq<string>>, k: string,
                     prev: seq<(string, string)>, cur: seq<(string, string)>)
    requires pairs != [] && init == pairs[..|pairs| - 1]
    requires forall i :: 0 <= i < |pairs| ==> |pairs[i]| == 2
    requires k in Keys(prev) <==> exists i :: 0 <= i < |init| && init[i][0] == k
    requires forall i :: 0 <= i < |init| && init[i][0] == k && (forall j :: i < j < |init| ==> init[j][0] != k) ==>
      (k, init[i][1]) in prev
    requires var last := pairs[|pairs| - 1];
      && (k in Keys(cur) <==> k in Keys(prev) || k == last[0])
      && (last[0], last[1]) in cur
      && (forall e :: e in prev && e.0 != last[0] ==> e in cur)
    ensures k in Keys(cur) <==> exists i :: 0 <= i < |pairs| && pairs[i][0] == k
    ensures forall i :: 0 <= i < |pairs| && pairs[i][0] == k && (forall j :: i < j < |pairs| ==> pairs[j][0] != k) ==>
      (k, pairs[i][1]) in cur
  {
    var n := |pairs| - 1;
    assert forall i :: 0 <= i < n ==> init[i] == pairs[i];
    if pairs[n][0] != k {
      forall i | 0 <= i < |pairs| && pairs[i][0] == k && (forall j :: i < j < |pairs| ==> pairs[j][0] != k)
        ensures (k, pairs[i][1]) in cur
      {
        assert i < n;
        assert (k, init[i][1]) in prev;
      }
    }
  }
}
