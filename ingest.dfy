/**
 * Loading the news table into the vector store: the per-row "news_info" text, embedding the
 * texts in consecutive batches, and inserting ids, vectors and payloads batch by batch.
 *
 * The table is a value (a list of columns and one map per row, a missing key or NaN being
 * Missing). The embedding model, the name-based uuid, the collection creation and the batch
 * insert are parameters; an embedding call that raises returns None.
 */
module Ingest {
  import opened Util
  import opened Text

  /** One cell: NaN, or a text value. */
  datatype Cell = Missing | Text(s: string)

  /** One row, as a map from column name to cell. */
  type Row = map<string, Cell>

  datatype Frame = Frame(columns: seq<string>, rows: seq<Row>)

  /** The row's cell in a column; a column the row lacks reads as NaN. */
  function CellAt(row: Row, col: string): Cell
  {
    if col in row then row[col] else Missing
  }

  /** The cell after fillna(''). */
  function Filled(c: Cell): string
  {
    match c
    case Missing => ""
    case Text(s) => s
  }

  /** str() of a cell: NaN prints as "nan". */
  function Str(c: Cell): string
  {
    match c
    case Missing => "nan"
    case Text(s) => s
  }

  // ---------------------------------------------------------------- preprocess_data

  const InfoParts: seq<string> := ["category", "sub_category", "title", "abstract"]

  const NewsInfoColumn: string := "news_info"

  /** The candidate columns that the table has, in the candidates' order. */
  function Present(candidates: seq<string>, columns: seq<string>): (parts: seq<string>)
    ensures forall c :: c in parts <==> c in candidates && c in columns
    ensures |parts| <= |candidates|
  {
    if candidates == [] then []
    else (if candidates[0] in columns then [candidates[0]] else []) + Present(candidates[1..], columns)
  }

  /**
   * A row of a table with the given columns after fillna(''): every column holds a text, NaN
   * becoming the empty string and every other value staying.
   */
  function FillRow(row: Row, columns: seq<string>): (filled: Row)
    ensures filled.Keys == set c | c in columns
    ensures forall c :: c in columns ==> filled[c] == Text(Filled(CellAt(row, c)))
  {
    map c | c in columns :: Text(Filled(CellAt(row, c)))
  }

  /** "col:value" for one column of a filled row. */
  function InfoField(row: Row, col: string): string
  {
    col + ":" + Filled(CellAt(row, col))
  }

  /** ' | '.join(f"{col}:{row[col]}" for col in parts). */
  function NewsInfo(row: Row, parts: seq<string>): string
  {
    Join(seq(|parts|, i requires 0 <= i < |parts| => InfoField(row, parts[i])), " | ")
  }

  const EntityColumns: seq<string> := ["title_entities", "abstract_entities"]

  /**
   * The literal_eval step for one entity cell: NaN and blank text become [], any other text must
   * be a literal that `accepts` admits, or literal_eval raises.
   */
  predicate EntityCellParses(c: Cell, accepts: string -> bool)
  {
    match c
    case Missing => true
    case Text(s) => Strip(s) == "" || accepts(s)
  }

  /** Every cell of the entity columns the table has survives literal_eval. */
  predicate EntitiesParse(frame: Frame, accepts: string -> bool)
  {
    forall i, col :: 0 <= i < |frame.rows| && col in EntityColumns && col in frame.columns ==>
      EntityCellParses(CellAt(frame.rows[i], col), accepts)
  }

  /**
   * The fillna('') and news_info steps: a new table whose rows hold every column filled and
   * their news_info, and the news_info strings, one per row in row order.
   */
  function Prepare(frame: Frame): (r: (Frame, seq<string>))
    ensures |r.1| == |frame.rows| && |r.0.rows| == |frame.rows|
    ensures forall i :: 0 <= i < |frame.rows| ==>
      r.1[i] == NewsInfo(FillRow(frame.rows[i], frame.columns), Present(InfoParts, frame.columns))
    ensures forall i :: 0 <= i < |frame.rows| ==> CellAt(r.0.rows[i], NewsInfoColumn) == Text(r.1[i])
    ensures forall c :: c in frame.columns ==> c in r.0.columns
  {
    var parts := Present(InfoParts, frame.columns);
    var infos := seq(|frame.rows|, i requires 0 <= i < |frame.rows| => NewsInfo(FillRow(frame.rows[i], frame.columns), parts));
    var rows := seq(|frame.rows|, i requires 0 <= i < |frame.rows| =>
      FillRow(frame.rows[i], frame.columns)[NewsInfoColumn := Text(infos[i])]);
    var columns := if NewsInfoColumn in frame.columns then frame.columns else frame.columns + [NewsInfoColumn];
    (Frame(columns, rows), infos)
  }

  /**
   * preprocess_data: raises (None) when a non-blank entity cell is not a literal; otherwise the
   * prepared table and its news_info strings.
   */
  function PreprocessData(frame: Frame, accepts: string -> bool): (r: Option<(Frame, seq<string>)>)
    ensures r.None? <==>
      exists i, col :: 0 <= i < |frame.rows| && col in EntityColumns && col in frame.columns &&
        !EntityCellParses(CellAt(frame.rows[i], col), accepts)
    ensures r.Some? ==> r.value == Prepare(frame)
  {
    if EntitiesParse(frame, accepts) then Some(Prepare(frame)) else None
  }

  /**
   * After fillna('') every row of the prepared table has a text news_id, so a NaN id is hashed
   * as the empty string.
   */
  lemma PreparedNewsIds(frame: Frame, i: nat)
    requires i < |frame.rows| && NewsIdColumn in frame.columns
    ensures CellAt(Prepare(frame).0.rows[i], NewsIdColumn) == Text(Filled(CellAt(frame.rows[i], NewsIdColumn)))
  {
    assert NewsIdColumn != NewsInfoColumn;
  }

  /**
   * With all four columns present, news_info is "category:c | sub_category:sc | title:t |
   * abstract:a", a NaN cell showing as "".
   */
  lemma NewsInfoAllColumns(frame: Frame, i: nat)
    requires i < |frame.rows|
    requires forall c :: c in InfoParts ==> c in frame.columns
    ensures var row := frame.rows[i];
      Prepare(frame).1[i] ==
        InfoField(row, "category") + " | " + InfoField(row, "sub_category") + " | " +
        InfoField(row, "title") + " | " + InfoField(row, "abstract")
  {
    PresentAll(InfoParts, frame.columns);
    FilledInfo(frame.rows[i], frame.columns);
  }

  /** The four fields of a filled row read as those of the row itself. */
  lemma FilledInfo(row: Row, columns: seq<string>)
    requires forall c :: c in InfoParts ==> c in columns
    ensures NewsInfo(FillRow(row, columns), InfoParts) ==
      InfoField(row, "category") + " | " + InfoField(row, "sub_category") + " | " +
      InfoField(row, "title") + " | " + InfoField(row, "abstract")
  {
    NewsInfoFour(FillRow(row, columns), "category", "sub_category", "title", "abstract");
    FilledKeeps(row, columns, "category");
    FilledKeeps(row, columns, "sub_category");
    FilledKeeps(row, columns, "title");
    FilledKeeps(row, columns, "abstract");
  }

  lemma NewsInfoFour(row: Row, a: string, b: string, c: string, d: string)
    ensures NewsInfo(row, [a, b, c, d]) ==
      InfoField(row, a) + " | " + InfoField(row, b) + " | " + InfoField(row, c) + " | " + InfoField(row, d)
  {
    var parts := [a, b, c, d];
    var fields := seq(|parts|, i requires 0 <= i < |parts| => InfoField(row, parts[i]));
    assert fields == [InfoField(row, a), InfoField(row, b), InfoField(row, c), InfoField(row, d)];
    JoinFour(InfoField(row, a), InfoField(row, b), InfoField(row, c), InfoField(row, d), " | ");
  }

  /** Filling a row does not change what a column shows once NaN is read as "". */
  lemma FilledKeeps(row: Row, columns: seq<string>, c: string)
    requires c in columns
    ensures InfoField(FillRow(row, columns), c) == InfoField(row, c)
  {
  }

  lemma JoinFour(a: string, b: string, c: string, d: string, sep: string)
    ensures Join([a, b, c, d], sep) == a + sep + b + sep + c + sep + d
  {
    assert [c, d][1..] == [d];
    assert Join([c, d], sep) == c + sep + d;
    assert [b, c, d][1..] == [c, d];
    assert Join([b, c, d], sep) == b + sep + (c + sep + d);
    assert [a, b, c, d][1..] == [b, c, d];
    assert Join([a, b, c, d], sep) == a + sep + (b + sep + (c + sep + d));
  }

  /** Without any of the four columns, news_info is empty. */
  lemma NewsInfoNoColumns(frame: Frame, i: nat)
    requires i < |frame.rows|
    requires forall c :: c in InfoParts ==> c !in frame.columns
    ensures Prepare(frame).1[i] == ""
  {
    PresentNone(InfoParts, frame.columns);
  }

  lemma {:induction false} PresentAll(candidates: seq<string>, columns: seq<string>)
    requires forall c :: c in candidates ==> c in columns
    ensures Present(candidates, columns) == candidates
  {
    if candidates != [] {
      assert candidates[0] in candidates;
      PresentAll(candidates[1..], columns);
    }
  }

  lemma {:induction false} PresentNone(candidates: seq<string>, columns: seq<string>)
    requires forall c :: c in candidates ==> c !in columns
    ensures Present(candidates, columns) == []
  {
    if candidates != [] {
      assert candidates[0] in candidates;
      PresentNone(candidates[1..], columns);
    }
  }

  // ---------------------------------------------------------------- compute_embeddings_batch

  /** The batches texts[i:i+b], texts[i+b:i+2b], ... that start before the end. */
  function ChunksFrom<T>(s: seq<T>, i: nat, b: nat): seq<seq<T>>
    requires b > 0
    decreases |s| - i
  {
    if i >= |s| then [] else [Slice(s, i, i + b)] + ChunksFrom(s, i + b, b)
  }

  function Flatten<T>(ss: seq<seq<T>>): seq<T>
  {
    if ss == [] then [] else ss[0] + Flatten(ss[1..])
  }

  /** The batches are non-empty, at most b long, and together they are the rest of the sequence, in order. */
  lemma {:induction false} ChunksCover<T>(s: seq<T>, i: nat, b: nat)
    requires b > 0 && i <= |s|
    ensures Flatten(ChunksFrom(s, i, b)) == s[i..]
    ensures forall k :: 0 <= k < |ChunksFrom(s, i, b)| ==> 0 < |ChunksFrom(s, i, b)[k]| <= b
    decreases |s| - i
  {
    if i < |s| {
      var chunks := ChunksFrom(s, i, b);
      if i + b <= |s| {
        ChunksCover(s, i + b, b);
        assert s[i..] == s[i..i + b] + s[i + b..];
      } else {
        assert ChunksFrom(s, i + b, b) == [];
        assert Slice(s, i, i + b) == s[i..];
      }
      assert chunks[1..] == ChunksFrom(s, i + b, b);
    }
  }

  /** a + the result, keeping an exception an exception. */
  function Prepend<V>(a: seq<V>, r: Option<seq<V>>): Option<seq<V>>
  {
    match r
    case None => None
    case Some(rest) => Some(a + rest)
  }

  /** The embeddings of the batches from position i on, concatenated; None when a call raised. */
  function EmbedFrom<V>(texts: seq<string>, i: nat, b: nat, embed: seq<string> -> Option<seq<V>>): Option<seq<V>>
    requires b > 0
    decreases |texts| - i
  {
    if i >= |texts| then Some([])
    else
      match embed(Slice(texts, i, i + b))
      case None => None
      case Some(e) => Prepend(e, EmbedFrom(texts, i + b, b, embed))
  }

  /** What compute_embeddings_batch returns: range() raises on a zero step and is empty for a negative one. */
  function Embeddings<V>(texts: seq<string>, b: int, embed: seq<string> -> Option<seq<V>>): Option<seq<V>>
  {
    if b == 0 then None
    else if b < 0 then Some([])
    else EmbedFrom(texts, 0, b, embed)
  }

  /** Prepend([], r) is r, and prepending twice is prepending the concatenation. */
  lemma PrependEmpty<V>(r: Option<seq<V>>)
    ensures Prepend([], r) == r
  {
    if r.Some? {
      assert [] + r.value == r.value;
    }
  }

  /** One batch step: what is gathered so far, followed by the rest, stays the same after embedding batch i. */
  lemma EmbedStep<V>(texts: seq<string>, i: nat, b: nat, embed: seq<string> -> Option<seq<V>>, all: seq<V>)
    requires b > 0 && i < |texts| && embed(Slice(texts, i, i + b)).Some?
    ensures Prepend(all, EmbedFrom(texts, i, b, embed)) ==
      Prepend(all + embed(Slice(texts, i, i + b)).value, EmbedFrom(texts, i + b, b, embed))
  {
    var e := embed(Slice(texts, i, i + b)).value;
    var rest := EmbedFrom(texts, i + b, b, embed);
    if rest.Some? {
      assert all + (e + rest.value) == (all + e) + rest.value;
    }
  }

  /** compute_embeddings_batch: embed consecutive batches of batch_size texts and concatenate the results. */
  method ComputeEmbeddingsBatch<V>(texts: seq<string>, b: int, embed: seq<string> -> Option<seq<V>>)
    returns (r: Option<seq<V>>)
    ensures r == Embeddings(texts, b, embed)
  {
    if b == 0 {
      return None;
    }
    if b < 0 {
      return Some([]);
    }
    var all: seq<V> := [];
    var i: nat := 0;
    PrependEmpty(EmbedFrom(texts, 0, b, embed));
    while i < |texts|
      invariant EmbedFrom(texts, 0, b, embed) == Prepend(all, EmbedFrom(texts, i, b, embed))
      decreases |texts| - i
    {
      var embeddings := embed(Slice(texts, i, i + b));
      if embeddings.None? {
        return None;
      }
      EmbedStep(texts, i, b, embed, all);
      all := all + embeddings.value;
      i := i + b;
    }
    assert all + [] == all;
    return Some(all);
  }

  /** The embedding model gives one vector per text for each batch it is given. */
  predicate OnePerText<V>(embed: seq<string> -> Option<seq<V>>, batches: seq<seq<string>>)
  {
    forall k :: 0 <= k < |batches| ==> embed(batches[k]).Some? && |embed(batches[k]).value| == |batches[k]|
  }

  /** When every batch gets one vector per text, the result is the batches' vectors, one per text, in order. */
  lemma {:induction false} EmbedFromAligned<V>(texts: seq<string>, i: nat, b: nat, embed: seq<string> -> Option<seq<V>>)
    requires b > 0 && i <= |texts|
    requires OnePerText(embed, ChunksFrom(texts, i, b))
    ensures EmbedFrom(texts, i, b, embed).Some?
    ensures |EmbedFrom(texts, i, b, embed).value| == |texts| - i
    decreases |texts| - i
  {
    if i < |texts| {
      var chunks := ChunksFrom(texts, i, b);
      var rest := ChunksFrom(texts, i + b, b);
      assert chunks == [Slice(texts, i, i + b)] + rest;
      assert embed(chunks[0]).Some? && |embed(chunks[0]).value| == |chunks[0]|;
      if i + b <= |texts| {
        forall k | 0 <= k < |rest|
          ensures embed(rest[k]).Some? && |embed(rest[k]).value| == |rest[k]|
        {
          assert rest[k] == chunks[k + 1];
        }
        EmbedFromAligned(texts, i + b, b, embed);
      } else {
        assert EmbedFrom(texts, i + b, b, embed) == Some([]);
      }
    }
  }

  /** With a positive batch size and one vector per text, compute_embeddings_batch gives one vector per text. */
  lemma EmbeddingsAligned<V>(texts: seq<string>, b: int, embed: seq<string> -> Option<seq<V>>)
    requires b > 0 && OnePerText(embed, ChunksFrom(texts, 0, b))
    ensures Embeddings(texts, b, embed).Some? && |Embeddings(texts, b, embed).value| == |texts|
  {
    EmbedFromAligned(texts, 0, b, embed);
  }

  // ---------------------------------------------------------------- save_to_qdrant

  const NewsIdColumn: string := "news_id"
  const PointIdColumn: string := "point_id"

  /** What save_to_qdrant does: raise, or return a flag, with the number of points the inserts reported. */
  datatype Saved = Raised | Returned(ok: bool, total: nat)

  /** The point id of each row: the uuid of str(news_id). */
  function PointIds(frame: Frame, uuid: string -> string): (ids: seq<string>)
    ensures |ids| == |frame.rows|
    ensures forall i :: 0 <= i < |frame.rows| ==> ids[i] == uuid(Str(CellAt(frame.rows[i], NewsIdColumn)))
  {
    seq(|frame.rows|, i requires 0 <= i < |frame.rows| => uuid(Str(CellAt(frame.rows[i], NewsIdColumn))))
  }

  /** to_dict(orient='records') after the point_id column is added: every column's cell, and the point id. */
  function Payloads(frame: Frame, ids: seq<string>): (ps: seq<Row>)
    requires |ids| == |frame.rows|
    ensures |ps| == |frame.rows|
    ensures forall i :: 0 <= i < |ps| ==> ps[i].Keys == (set c | c in frame.columns) + {PointIdColumn}
    ensures forall i :: 0 <= i < |ps| ==> ps[i][PointIdColumn] == Text(ids[i])
    ensures forall i, c :: 0 <= i < |ps| && c in frame.columns && c != PointIdColumn ==>
      ps[i][c] == CellAt(frame.rows[i], c)
  {
    seq(|frame.rows|, i requires 0 <= i < |frame.rows| =>
      (map c | c in frame.columns :: CellAt(frame.rows[i], c))[PointIdColumn := Text(ids[i])])
  }

  /** The length of the batch that starts at i in a sequence of n elements. */
  function BatchLen(n: nat, i: nat, b: nat): nat
  {
    if i >= n then 0 else Min(b, n - i)
  }

  lemma SliceLen<T>(s: seq<T>, i: nat, b: nat)
    ensures |Slice(s, i, i + b)| == BatchLen(|s|, i, b)
  {
  }

  /** The arguments of one add_points call: ids, vectors and payloads of the same positions. */
  datatype Batch<V> = Batch(ids: seq<string>, vectors: seq<V>, payloads: seq<Row>)

  /** The batches ids[i:i+b], vectors[i:i+b], payloads[i:i+b] for i in range(start, len(vectors), b). */
  function BatchesFrom<V>(ids: seq<string>, vectors: seq<V>, payloads: seq<Row>, i: nat, b: nat): seq<Batch<V>>
    requires b > 0
    decreases |vectors| - i
  {
    if i >= |vectors| then []
    else
      var batch := Batch(Slice(ids, i, i + b), Slice(vectors, i, i + b), Slice(payloads, i, i + b));
      [batch] + BatchesFrom(ids, vectors, payloads, i + b, b)
  }

  /** add_points raises unless the ids have as many entries as the payloads and as the vectors. */
  predicate Aligned<V>(batch: Batch<V>)
  {
    |batch.ids| == |batch.payloads| && |batch.ids| == |batch.vectors|
  }

  /** The points a batch adds to the total: its size when the insert reports success, else none. */
  function Accepted<V>(batch: Batch<V>, insert: (seq<string>, seq<V>, seq<Row>) -> bool): nat
  {
    if insert(batch.ids, batch.vectors, batch.payloads) then |batch.ids| else 0
  }

  /** n added to a total, keeping an exception an exception. */
  function AddTo(n: nat, r: Option<nat>): Option<nat>
  {
    match r
    case None => None
    case Some(t) => Some(n + t)
  }

  /** The batches inserted in order: None when one of them raises, otherwise the accepted points. */
  function SaveAll<V>(batches: seq<Batch<V>>, insert: (seq<string>, seq<V>, seq<Row>) -> bool): Option<nat>
  {
    if batches == [] then Some(0)
    else if !Aligned(batches[0]) then None
    else AddTo(Accepted(batches[0], insert), SaveAll(batches[1..], insert))
  }

  lemma AddToZero(r: Option<nat>)
    ensures AddTo(0, r) == r
  {
  }

  /** Adding to a total in two steps is adding the sum. */
  lemma AddToTwice(m: nat, n: nat, r: Option<nat>)
    ensures AddTo(m, AddTo(n, r)) == AddTo(m + n, r)
  {
  }

  /** What save_to_qdrant does for a table, its vectors and a batch size. */
  function SaveOutcome<V>(
    frame: Frame, vectors: seq<V>, collectionOk: bool, b: int, uuid: string -> string,
    insert: (seq<string>, seq<V>, seq<Row>) -> bool): Saved
  {
    if NewsIdColumn !in frame.columns || !collectionOk || b == 0 then Raised
    else if b < 0 then Returned(true, 0)
    else
      var ids := PointIds(frame, uuid);
      match SaveAll(BatchesFrom(ids, vectors, Payloads(frame, ids), 0, b), insert)
      case None => Raised
      case Some(t) => Returned(true, t)
  }

  /**
   * The batch loop of save_to_qdrant: each batch goes to add_points, which raises on a length
   * mismatch (None) and otherwise reports whether the upsert succeeded; a success adds the
   * batch's size to the total.
   */
  method SaveBatches<V>(batches: seq<Batch<V>>, insert: (seq<string>, seq<V>, seq<Row>) -> bool)
    returns (r: Option<nat>)
    ensures r == SaveAll(batches, insert)
  {
    var total: nat := 0;
    AddToZero(SaveAll(batches, insert));
    assert batches[0..] == batches;
    for k := 0 to |batches|
      invariant SaveAll(batches, insert) == AddTo(total, SaveAll(batches[k..], insert))
    {
      var batch := batches[k];
      assert batches[k..][1..] == batches[k + 1..];
      if |batch.ids| != |batch.payloads| || |batch.ids| != |batch.vectors| {
        return None;
      }
      var success := insert(batch.ids, batch.vectors, batch.payloads);
      var accepted := if success then |batch.ids| else 0;
      AddToTwice(total, accepted, SaveAll(batches[k + 1..], insert));
      total := total + accepted;
    }
    return Some(total);
  }

  /**
   * save_to_qdrant: point ids from the news ids, the collection created (which raises on
   * failure), then one insert per batch of the vectors with the ids and payloads of the same
   * positions; the total counts the batches the insert accepted, and the result is True.
   */
  method SaveToQdrant<V>(
    frame: Frame, vectors: seq<V>, collectionOk: bool, b: int, uuid: string -> string,
    insert: (seq<string>, seq<V>, seq<Row>) -> bool)
    returns (r: Saved)
    ensures r == SaveOutcome(frame, vectors, collectionOk, b, uuid, insert)
  {
    if NewsIdColumn !in frame.columns {
      return Raised;
    }
    var ids := PointIds(frame, uuid);
    if !collectionOk {
      return Raised;
    }
    var payloads := Payloads(frame, ids);
    if b == 0 {
      return Raised;
    }
    if b < 0 {
      return Returned(true, 0);
    }
    var saved := SaveBatches(BatchesFrom(ids, vectors, payloads, 0, b), insert);
    if saved.None? {
      return Raised;
    }
    return Returned(true, saved.value);
  }

  /** save_to_qdrant never returns False: it returns True or raises. */
  lemma SaveNeverReturnsFalse<V>(
    frame: Frame, vectors: seq<V>, collectionOk: bool, b: int, uuid: string -> string,
    insert: (seq<string>, seq<V>, seq<Row>) -> bool)
    ensures SaveOutcome(frame, vectors, collectionOk, b, uuid, insert).Returned? ==>
      SaveOutcome(frame, vectors, collectionOk, b, uuid, insert).ok
  {
  }

  /** n is a whole number of batches of size b. */
  predicate WholeBatches(n: nat, b: nat)
    requires b > 0
    decreases n
  {
    n == 0 || (n >= b && WholeBatches(n - b, b))
  }

  /** A whole number of batches is a multiple of the batch size. */
  lemma {:induction false} WholeBatchesMod(n: nat, b: nat)
    requires b > 0
    ensures WholeBatches(n, b) <==> n % b == 0
    decreases n
  {
    if n >= b {
      WholeBatchesMod(n - b, b);
      ModShift(n - b, b);
    } else if n > 0 {
      ModUnique(n, b, 0, n);
    }
  }

  /**
   * The batch sizes of the batches from position i on: one batch per step of b below nv, each
   * taking what is left of ids, payloads and vectors there (nr, np and nv long), at most b.
   */
  predicate Shaped<V>(batches: seq<Batch<V>>, nr: nat, np: nat, nv: nat, i: nat, b: nat)
    requires b > 0
    decreases nv - i
  {
    if i >= nv then batches == []
    else
      && batches != []
      && |batches[0].ids| == BatchLen(nr, i, b)
      && |batches[0].payloads| == BatchLen(np, i, b)
      && |batches[0].vectors| == BatchLen(nv, i, b)
      && Shaped(batches[1..], nr, np, nv, i + b, b)
  }

  /** The batches of save_to_qdrant have those sizes. */
  lemma {:induction false} BatchesShaped<V>(ids: seq<string>, vectors: seq<V>, payloads: seq<Row>, i: nat, b: nat)
    requires b > 0
    ensures Shaped(BatchesFrom(ids, vectors, payloads, i, b), |ids|, |payloads|, |vectors|, i, b)
    decreases |vectors| - i
  {
    if i < |vectors| {
      var batches := BatchesFrom(ids, vectors, payloads, i, b);
      assert batches[1..] == BatchesFrom(ids, vectors, payloads, i + b, b);
      SliceLen(ids, i, b);
      SliceLen(vectors, i, b);
      SliceLen(payloads, i, b);
      BatchesShaped(ids, vectors, payloads, i + b, b);
    }
  }

  /**
   * From a position no further than either length, the batches raise exactly when there are
   * more vectors than rows, or fewer vectors than rows and the vectors left are not a whole
   * number of batches.
   */
  lemma {:induction false} ShapedRaises<V>(
    batches: seq<Batch<V>>, nr: nat, nv: nat, i: nat, b: nat,
    insert: (seq<string>, seq<V>, seq<Row>) -> bool)
    requires b > 0 && i <= nv && i <= nr && Shaped(batches, nr, nr, nv, i, b)
    ensures SaveAll(batches, insert).None? <==> nv > nr || (nv < nr && !WholeBatches(nv - i, b))
    decreases nv - i
  {
    if i < nv {
      if i + b <= nv && i + b <= nr {
        ShapedRaises(batches[1..], nr, nv, i + b, b, insert);
        assert nv - (i + b) == (nv - i) - b;
      } else if nr == nv {
        assert batches[1..] == [];
      }
    }
  }

  /**
   * The total counts only accepted batches, so it never exceeds the vectors sent; when every
   * insert is accepted it is all of them.
   */
  lemma {:induction false} ShapedTotal<V>(
    batches: seq<Batch<V>>, nr: nat, np: nat, nv: nat, i: nat, b: nat,
    insert: (seq<string>, seq<V>, seq<Row>) -> bool)
    requires b > 0 && i <= nv && Shaped(batches, nr, np, nv, i, b) && SaveAll(batches, insert).Some?
    ensures SaveAll(batches, insert).value <= nv - i
    ensures (forall x, y, z :: insert(x, y, z)) ==> SaveAll(batches, insert).value == nv - i
    decreases nv - i
  {
    if i < nv {
      if i + b <= nv {
        ShapedTotal(batches[1..], nr, np, nv, i + b, b, insert);
      } else {
        assert batches[1..] == [];
      }
    }
  }

  /** Adding one more batch does not change the remainder. */
  lemma ModShift(x: nat, b: nat)
    requires b > 0
    ensures (x + b) % b == x % b
  {
    var q, r := x / b, x % b;
    assert x + b == (q + 1) * b + r;
    ModUnique(x + b, b, q + 1, r);
  }

  /** The remainder is the one r in [0, b) with y == q * b + r. */
  lemma ModUnique(y: int, b: int, q: int, r: int)
    requires b > 0 && y == q * b + r && 0 <= r < b
    ensures y % b == r
  {
    var d := y / b - q;
    assert d * b == r - y % b;
    assert d == 0;
  }

  /**
   * With one vector per row, a positive batch size, a news_id column and a collection that
   * exists, save_to_qdrant returns True with a total of at most one point per row, and of
   * every row when every insert is accepted.
   */
  lemma SaveAligned<V>(
    frame: Frame, vectors: seq<V>, b: int, uuid: string -> string,
    insert: (seq<string>, seq<V>, seq<Row>) -> bool)
    requires |vectors| == |frame.rows| && b > 0 && NewsIdColumn in frame.columns
    ensures var r := SaveOutcome(frame, vectors, true, b, uuid, insert);
      r.Returned? && r.ok && r.total <= |frame.rows|
      && ((forall x, y, z :: insert(x, y, z)) ==> r.total == |frame.rows|)
  {
    var ids := PointIds(frame, uuid);
    var payloads := Payloads(frame, ids);
    var batches := BatchesFrom(ids, vectors, payloads, 0, b);
    BatchesShaped(ids, vectors, payloads, 0, b);
    ShapedRaises(batches, |ids|, |vectors|, 0, b, insert);
    ShapedTotal(batches, |ids|, |ids|, |vectors|, 0, b, insert);
  }

  /**
   * Fewer vectors than rows: when the vectors fill whole batches, the rows past them are never
   * sent and the result is still True; otherwise the last, partial batch raises.
   */
  lemma ShortVectors<V>(
    frame: Frame, vectors: seq<V>, b: int, uuid: string -> string,
    insert: (seq<string>, seq<V>, seq<Row>) -> bool)
    requires |vectors| < |frame.rows| && b > 0 && NewsIdColumn in frame.columns
    ensures var r := SaveOutcome(frame, vectors, true, b, uuid, insert);
      && (|vectors| % b == 0 ==> r.Returned? && r.ok && r.total <= |vectors| < |frame.rows|)
      && (|vectors| % b != 0 ==> r.Raised?)
  {
    var ids := PointIds(frame, uuid);
    var payloads := Payloads(frame, ids);
    var batches := BatchesFrom(ids, vectors, payloads, 0, b);
    BatchesShaped(ids, vectors, payloads, 0, b);
    ShapedRaises(batches, |ids|, |vectors|, 0, b, insert);
    WholeBatchesMod(|vectors|, b);
    if |vectors| % b == 0 {
      ShapedTotal(batches, |ids|, |ids|, |vectors|, 0, b, insert);
    }
  }

  /** More vectors than rows: some batch has fewer ids than vectors, and add_points raises. */
  lemma ExtraVectorsRaise<V>(
    frame: Frame, vectors: seq<V>, b: int, uuid: string -> string,
    insert: (seq<string>, seq<V>, seq<Row>) -> bool)
    requires |vectors| > |frame.rows| && b > 0
    ensures SaveOutcome(frame, vectors, true, b, uuid, insert).Raised?
  {
    if NewsIdColumn in frame.columns {
      var ids := PointIds(frame, uuid);
      var payloads := Payloads(frame, ids);
      BatchesShaped(ids, vectors, payloads, 0, b);
      ShapedRaises(BatchesFrom(ids, vectors, payloads, 0, b), |ids|, |vectors|, 0, b, insert);
    }
  }

  // ---------------------------------------------------------------- process_and_save

  /** What process_and_save returns: False when any step raised, otherwise what saving returned. */
  function ProcessOutcome<V>(
    loaded: Option<Frame>, accepts: string -> bool, b: int, embed: seq<string> -> Option<seq<V>>,
    collectionOk: bool, uuid: string -> string, insert: (seq<string>, seq<V>, seq<Row>) -> bool): bool
  {
    match loaded
    case None => false
    case Some(frame) =>
      match PreprocessData(frame, accepts)
      case None => false
      case Some(prepared) =>
      var (table, infos) := prepared;
      match Embeddings(infos, b, embed)
      case None => false
      case Some(vectors) =>
        match SaveOutcome(table, vectors, collectionOk, b, uuid, insert)
        case Raised => false
        case Returned(ok, _) => ok
  }

  /**
   * process_and_save: load, preprocess, embed with the given batch size, save with the same
   * batch size; an exception anywhere yields False.
   */
  method ProcessAndSave<V>(
    loaded: Option<Frame>, accepts: string -> bool, b: int, embed: seq<string> -> Option<seq<V>>,
    collectionOk: bool, uuid: string -> string, insert: (seq<string>, seq<V>, seq<Row>) -> bool)
    returns (ok: bool)
    ensures ok == ProcessOutcome(loaded, accepts, b, embed, collectionOk, uuid, insert)
  {
    if loaded.None? {
      return false;
    }
    var prepared := PreprocessData(loaded.value, accepts);
    if prepared.None? {
      return false;
    }
    var (table, infos) := prepared.value;
    var embeddings := ComputeEmbeddingsBatch(infos, b, embed);
    if embeddings.None? {
      return false;
    }
    var saved := SaveToQdrant(table, embeddings.value, collectionOk, b, uuid, insert);
    if saved.Raised? {
      return false;
    }
    return saved.ok;
  }

  /**
   * The whole load succeeds when the table loads with a news_id column, the batch size is
   * positive, the collection exists, and the model gives one vector per text: the vectors then
   * line up with the rows and nothing raises.
   */
  lemma ProcessSucceeds<V>(
    frame: Frame, accepts: string -> bool, b: int, embed: seq<string> -> Option<seq<V>>,
    uuid: string -> string, insert: (seq<string>, seq<V>, seq<Row>) -> bool)
    requires b > 0 && NewsIdColumn in frame.columns && EntitiesParse(frame, accepts)
    requires OnePerText(embed, ChunksFrom(Prepare(frame).1, 0, b))
    ensures ProcessOutcome(Some(frame), accepts, b, embed, true, uuid, insert)
  {
    var (table, infos) := Prepare(frame);
    EmbeddingsAligned(infos, b, embed);
    var vectors := Embeddings(infos, b, embed).value;
    SaveAligned(table, vectors, b, uuid, insert);
  }

  /** A non-blank entity cell that is not a literal makes the whole load return False. */
  lemma MalformedEntitiesFail<V>(
    frame: Frame, accepts: string -> bool, b: int, embed: seq<string> -> Option<seq<V>>,
    collectionOk: bool, uuid: string -> string, insert: (seq<string>, seq<V>, seq<Row>) -> bool,
    i: nat, col: string)
    requires i < |frame.rows| && col in EntityColumns && col in frame.columns
    requires CellAt(frame.rows[i], col).Text? && Strip(CellAt(frame.rows[i], col).s) != ""
    requires !accepts(CellAt(frame.rows[i], col).s)
    ensures !ProcessOutcome(Some(frame), accepts, b, embed, collectionOk, uuid, insert)
  {
    assert !EntityCellParses(CellAt(frame.rows[i], col), accepts);
  }
}
