/** The cache's error vocabulary and the messages it displays (src/notechart_cache/error.rs). */
module Errors {
  import opened Wrappers

  /** The text of a wrapped `std::io::Error`. */
  datatype IoError = IoError(text: string)

  /** The text of a wrapped `rusqlite::Error`. */
  datatype DbError = DbError(text: string)

  /** The eight kinds of failure, without payload. The discovery pass builds its errors from
      these bare constructors. */
  datatype ErrorKind =
    | DirRead | Connection | Transaction | FileRead
    | DbInsert | DbSelect | DbDelete | DbUpdate

  /** `CacheError`: the two filesystem kinds wrap an I/O error, the six storage kinds a database error. */
  datatype CacheError =
    | DirReadError(io: IoError)
    | ConnectionError(db: DbError)
    | TransactionError(db: DbError)
    | FileReadError(io: IoError)
    | DbInsertError(db: DbError)
    | DbSelectError(db: DbError)
    | DbDeleteError(db: DbError)
    | DbUpdateError(db: DbError)
  {
    function Kind(): ErrorKind
    {
      match this
      case DirReadError(_) => DirRead
      case ConnectionError(_) => Connection
      case TransactionError(_) => Transaction
      case FileReadError(_) => FileRead
      case DbInsertError(_) => DbInsert
      case DbSelectError(_) => DbSelect
      case DbDeleteError(_) => DbDelete
      case DbUpdateError(_) => DbUpdate
    }

    /** The display text of the wrapped error. */
    function Cause(): string
    {
      if DirReadError? || FileReadError? then io.text else db.text
    }
  }

  /** The fixed text each kind's message starts with. */
  function Prefix(k: ErrorKind): (p: string)
    ensures KindOf(p) == Some(k)
  {
    match k
    case DirRead => "Failed to read directory: "
    case Connection => "Failed to open connection: "
    case Transaction => "Failed to do transaction: "
    case FileRead => "Failed to read file: "
    case DbInsert => "Failed to insert row: "
    case DbSelect => "Failed to select row: "
    case DbDelete => "Failed to delete row: "
    case DbUpdate => "Failed to update row: "
  }

  /** `Display for CacheError`: defined for every variant; the kind's prefix followed by the
      wrapped error's own text. */
  function Message(e: CacheError): (m: string)
    ensures |Prefix(e.Kind())| <= |m|
    ensures m[..|Prefix(e.Kind())|] == Prefix(e.Kind())
    ensures m[|Prefix(e.Kind())|..] == e.Cause()
  {
    match e
    case DirReadError(io) => "Failed to read directory: " + io.text
    case ConnectionError(db) => "Failed to open connection: " + db.text
    case TransactionError(db) => "Failed to do transaction: " + db.text
    case FileReadError(io) => "Failed to read file: " + io.text
    case DbInsertError(db) => "Failed to insert row: " + db.text
    case DbSelectError(db) => "Failed to select row: " + db.text
    case DbDeleteError(db) => "Failed to delete row: " + db.text
    case DbUpdateError(db) => "Failed to update row: " + db.text
  }

  /** Recovers the kind of a message from two characters: every prefix starts with
      "Failed to " and the pair at positions 10 and 15 differs from kind to kind. */
  function KindOf(m: string): (k: Option<ErrorKind>)
    ensures k.Some? ==> 16 <= |m|
  {
    if |m| < 16 then None
    else
      match (m[10], m[15])
      case ('r', 'd') => Some(DirRead)
      case ('o', 'c') => Some(Connection)
      case ('d', 'a') => Some(Transaction)
      case ('r', 'f') => Some(FileRead)
      case ('i', 't') => Some(DbInsert)
      case ('s', 't') => Some(DbSelect)
      case ('d', 'e') => Some(DbDelete)
      case ('u', 'e') => Some(DbUpdate)
      case _ => None
  }

  /** The error of kind `k` wrapping an error whose text is `text`. */
  function Build(k: ErrorKind, text: string): (e: CacheError)
    ensures e.Kind() == k && e.Cause() == text
  {
    match k
    case DirRead => DirReadError(IoError(text))
    case Connection => ConnectionError(DbError(text))
    case Transaction => TransactionError(DbError(text))
    case FileRead => FileReadError(IoError(text))
    case DbInsert => DbInsertError(DbError(text))
    case DbSelect => DbSelectError(DbError(text))
    case DbDelete => DbDeleteError(DbError(text))
    case DbUpdate => DbUpdateError(DbError(text))
  }

  /** Reads a displayed message back into the error it displays, if it is one. */
  function ParseMessage(m: string): (r: Option<CacheError>)
    ensures r.Some? ==> Message(r.value) == m
  {
    match KindOf(m)
    case None => None
    case Some(k) =>
      var p := Prefix(k);
      if |p| <= |m| && m[..|p|] == p then
        var e := Build(k, m[|p|..]);
        assert m == p + m[|p|..];
        Some(e)
      else None
  }

  /** Every message reads back as the error it was displayed from. */
  lemma MessageRoundTrip(e: CacheError)
    ensures ParseMessage(Message(e)) == Some(e)
  {
    var k := e.Kind();
    var m := Message(e);
    var p := Prefix(k);
    assert m[10] == p[10] && m[15] == p[15];
    assert KindOf(m) == Some(k);
    assert Build(k, m[|p|..]) == e;
  }

  /** Different errors never display the same message, so in particular the eight
      prefixes are pairwise distinct and the wrapped text follows the prefix intact. */
  lemma MessageInjective(a: CacheError, b: CacheError)
    ensures Message(a) == Message(b) ==> a == b
  {
    MessageRoundTrip(a);
    MessageRoundTrip(b);
  }
}
