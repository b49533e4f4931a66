/**
 * The result accumulator (`append_data_to_file`) at the level of file
 * contents. Records and their JSON text are opaque: the serialiser
 * (`json.dump` with an indent of four) and the parser (`json.load`) are the
 * two functions of a `Codec`.
 */
module Accumulator {
  import opened Wrappers

  newtype byte = b: int | 0 <= b < 256

  type Bytes = seq<byte>

  /** One row of the remote table, a JSON object keyed by field name. */
  type Record(!new)

  /** The JSON library as the accumulator uses it: `dump` writes an array of
      records, `load` reads a file back and fails (None) on text that is not
      a JSON array. */
  datatype Codec = Codec(dump: seq<Record> -> Bytes, load: Bytes -> Option<seq<Record>>)

  /** What the accumulator's correctness rests on: reading back what was
      written gives the same records, and writing more records never gives
      shorter text. Both hold of `json.dump` and `json.load`. */
  ghost predicate Lawful(codec: Codec) {
    (forall xs :: codec.load(codec.dump(xs)) == Some(xs)) &&
    (forall xs, ys :: |codec.dump(xs)| <= |codec.dump(xs + ys)|)
  }

  /** The file after `seek(0)` and a write of `text` into an existing file
      holding `before`, with no truncation: the first |text| bytes are replaced,
      any bytes of `before` past that point stay. */
  function Overwrite(before: Bytes, text: Bytes): (r: Bytes)
    ensures |r| == if |text| >= |before| then |text| else |before|
    ensures forall i :: 0 <= i < |r| ==> r[i] == if i < |text| then text[i] else before[i]
  {
    if |text| >= |before| then text else text + before[|text|..]
  }

  /** The overwrite leaves exactly `text` behind if and only if `text` is at
      least as long as what the file held before. */
  lemma {:induction false} OverwriteExact(before: Bytes, text: Bytes)
    ensures Overwrite(before, text) == text <==> |text| >= |before|
  {
    if |text| < |before| {
      assert |Overwrite(before, text)| == |before|;
    }
  }

  /** Why an append can fail: the existing file does not read as a JSON
      array (`json.load` raises, or `extend` finds no list). */
  datatype AppendError = Unreadable

  /** The dataset file's content after appending `data`, given its content
      before (None: the file does not exist). */
  function Appended(codec: Codec, file: Option<Bytes>, data: seq<Record>): (r: Result<Bytes, AppendError>)
    ensures r.Failure? ==> file.Some?
    ensures r.Success? && file.Some? ==> |file.value| <= |r.value|
  {
    match file
    case None => Success(codec.dump(data))
    case Some(before) =>
      match codec.load(before)
      case None => Failure(Unreadable)
      case Some(held) => Success(Overwrite(before, codec.dump(held + data)))
  }

  /** The file holds the canonical text of `held`, or does not exist and
      `held` is empty. */
  ghost predicate Holds(codec: Codec, file: Option<Bytes>, held: seq<Record>) {
    match file
    case None => held == []
    case Some(bytes) => bytes == codec.dump(held)
  }

  /** When the file is absent it is created holding exactly the new records,
      and it reads back as them. */
  lemma {:induction false} AppendToAbsent(codec: Codec, data: seq<Record>)
    requires Lawful(codec)
    ensures Appended(codec, None, data) == Success(codec.dump(data))
    ensures codec.load(Appended(codec, None, data).value) == Some(data)
  {
  }

  /** On an existing file that reads as `held`, the result is exactly the
      text of `held + data` if and only if that text is at least as long as
      the file was; otherwise stale bytes of the earlier file remain at its end. */
  lemma {:induction false} AppendExactIff(codec: Codec, before: Bytes, held: seq<Record>, data: seq<Record>)
    requires codec.load(before) == Some(held)
    ensures Appended(codec, Some(before), data).Success?
    ensures Appended(codec, Some(before), data).value == codec.dump(held + data) <==>
            |codec.dump(held + data)| >= |before|
  {
    OverwriteExact(before, codec.dump(held + data));
  }

  /** The hazard of rewriting without truncation: when the new text is
      shorter than the file, the file keeps its earlier length and its tail
      is the earlier file's tail. */
  lemma {:induction false} AppendLeavesStaleTail(codec: Codec, before: Bytes, held: seq<Record>, data: seq<Record>)
    requires codec.load(before) == Some(held)
    requires |codec.dump(held + data)| < |before|
    ensures Appended(codec, Some(before), data).Success?
    ensures Appended(codec, Some(before), data).value != codec.dump(held + data)
    ensures |Appended(codec, Some(before), data).value| == |before|
    ensures Appended(codec, Some(before), data).value[|codec.dump(held + data)|..] ==
            before[|codec.dump(held + data)|..]
  {
    var r := Appended(codec, Some(before), data).value;
    var n := |codec.dump(held + data)|;
    assert |r| == |before|;
    assert r[n..] == before[n..];
  }

  /** With a lawful codec an append keeps the file canonical: a file holding
      `held` (or absent, with nothing held) ends up holding `held + data`. */
  lemma {:induction false} AppendKeepsHolds(codec: Codec, file: Option<Bytes>, held: seq<Record>, data: seq<Record>)
    requires Lawful(codec)
    requires Holds(codec, file, held)
    ensures Appended(codec, file, data) == Success(codec.dump(held + data))
    ensures Holds(codec, Some(Appended(codec, file, data).value), held + data)
  {
    match file
    case None =>
      assert held + data == data;
    case Some(before) =>
      assert codec.load(before) == Some(held);
      assert |before| <= |codec.dump(held + data)|;
      OverwriteExact(before, codec.dump(held + data));
  }

  /** Accumulating page A and then page B, starting without a file, leaves a
      file that reads back as A followed by B. */
  lemma {:induction false} AccumulateTwo(codec: Codec, a: seq<Record>, b: seq<Record>)
    requires Lawful(codec)
    ensures Appended(codec, None, a).Success?
    ensures Appended(codec, Some(Appended(codec, None, a).value), b) == Success(codec.dump(a + b))
    ensures codec.load(codec.dump(a + b)) == Some(a + b)
  {
    AppendKeepsHolds(codec, None, [], a);
    assert [] + a == a;
    AppendKeepsHolds(codec, Some(codec.dump(a)), a, b);
  }
}
