/** The record store shared by both services: the request body of a write
    (`Partial<RecordEntry>` as `express.json()` parses it), the stored row,
    the `records` table as a map keyed by its primary key `user_id`, the
    conversion of `notes` to a BLOB, and what SQLite does with one
    `INSERT` or one `INSERT ... ON CONFLICT(user_id) DO UPDATE` on that
    table: NOT NULL constraints in column order first, then the primary
    key. */
module Records {
  import opened Wrappers

  type byte = x: int | 0 <= x < 256

  /** A property of a parsed JSON object: missing (`undefined`), `null`, or
      a value of its declared type. */
  datatype Field<+T> = Absent | Null | Present(value: T)

  /** `notes?: Buffer | string`. */
  datatype Notes = Text(text: string) | Buffer(bytes: seq<byte>)

  /** The body of a write as the handlers destructure it. */
  datatype RecordEntry = RecordEntry(userId: Field<string>, timestamp: Field<int>, heartRate: Field<int>,
                                     bloodPressure: Field<string>, notes: Field<Notes>)

  /** A JSON request body: an object, or an array of objects. */
  datatype Body = Object(entry: RecordEntry) | Array(items: seq<RecordEntry>)

  /** The entry an object-destructuring of `req.body` sees: an array has
      none of the record's properties. */
  function EntryOf(body: Body): (e: RecordEntry)
    ensures body.Array? ==> e == RecordEntry(Absent, Absent, Absent, Absent, Absent)
  {
    match body
    case Object(e) => e
    case Array(_) => RecordEntry(Absent, Absent, Absent, Absent, Absent)
  }

  /** JavaScript truthiness of a string-valued property. */
  predicate Truthy(f: Field<string>) {
    f.Present? && f.value != ""
  }

  /** The 400 guard of `insertRecord`: `user_id` or `blood_pressure` falsy,
      or `timestamp` or `heart_rate` undefined. `null` and `0` pass for the
      two numbers. */
  predicate MissingFields(e: RecordEntry) {
    !Truthy(e.userId) || e.timestamp == Absent || e.heartRate == Absent || !Truthy(e.bloodPressure)
  }

  /** A row of the `records` table. Every column but `notes` is NOT NULL. */
  datatype Row = Row(userId: string, timestamp: int, heartRate: int, bloodPressure: string,
                     notes: Option<seq<byte>>)

  type Table = map<string, Row>

  /** The UTF-8 encoding of one Unicode scalar value. */
  function EncodeChar(c: char): (bs: seq<byte>)
    ensures 1 <= |bs| <= 4
  {
    var n := c as int;
    if n < 0x80 then [n]
    else if n < 0x800 then [0xC0 + n / 0x40, 0x80 + n % 0x40]
    else if n < 0x1_0000 then [0xE0 + n / 0x1000, 0x80 + n / 0x40 % 0x40, 0x80 + n % 0x40]
    else [0xF0 + n / 0x4_0000, 0x80 + n / 0x1000 % 0x40, 0x80 + n / 0x40 % 0x40, 0x80 + n % 0x40]
  }

  /** `Buffer.from(s, 'utf-8')`. */
  function Utf8(s: string): seq<byte> {
    if s == [] then [] else EncodeChar(s[0]) + Utf8(s[1..])
  }

  predicate IsContinuation(b: byte) { 0x80 <= b < 0xC0 }

  /** A scalar value from its code point, when it is one. */
  function ScalarOf(n: int): Option<char> {
    if 0 <= n < 0xD800 || 0xE000 <= n < 0x11_0000 then Some(n as char) else None
  }

  /** The six payload bits of a continuation byte. */
  function Payload(b: byte): int { b as int - 0x80 }

  /** Decodes the first scalar value of `bs`, rejecting overlong forms,
      surrogates and values past U+10FFFF; gives the character and the
      number of bytes it took. */
  function DecodeChar(bs: seq<byte>): Option<(char, nat)>
    requires bs != []
  {
    var b0 := bs[0] as int;
    if b0 < 0x80 then Some((b0 as char, 1))
    else if 0xC2 <= b0 < 0xE0 && |bs| >= 2 && IsContinuation(bs[1]) then
      Some((((b0 - 0xC0) * 0x40 + Payload(bs[1])) as char, 2))
    else if 0xE0 <= b0 < 0xF0 && |bs| >= 3 && IsContinuation(bs[1]) && IsContinuation(bs[2]) then
      var n := (b0 - 0xE0) * 0x1000 + Payload(bs[1]) * 0x40 + Payload(bs[2]);
      if n < 0x800 then None
      else match ScalarOf(n)
        case Some(c) => Some((c, 3))
        case None => None
    else if 0xF0 <= b0 < 0xF5 && |bs| >= 4 && IsContinuation(bs[1]) && IsContinuation(bs[2]) && IsContinuation(bs[3]) then
      var n := (b0 - 0xF0) * 0x4_0000 + Payload(bs[1]) * 0x1000 + Payload(bs[2]) * 0x40 + Payload(bs[3]);
      if n < 0x1_0000 then None
      else match ScalarOf(n)
        case Some(c) => Some((c, 4))
        case None => None
    else None
  }

  /** Strict UTF-8 decoding; `None` for a malformed byte string. */
  function Utf8Decode(bs: seq<byte>): Option<string>
    decreases |bs|
  {
    if bs == [] then Some([])
    else
      match DecodeChar(bs)
      case None => None
      case Some((c, k)) =>
        if k > |bs| then None
        else
          match Utf8Decode(bs[k..])
          case None => None
          case Some(rest) => Some([c] + rest)
  }

  /** Decoding the encoding of a character, followed by anything, reads
      back that character and its length. */
  lemma DecodeEncodeChar(c: char, rest: seq<byte>)
    ensures DecodeChar(EncodeChar(c) + rest) == Some((c, |EncodeChar(c)|))
  {
    var n := c as int;
    if n < 0x80 {
    } else if n < 0x800 {
      DecodeTwo(n, rest);
    } else if n < 0x1_0000 {
      DecodeThree(n, rest);
    } else {
      DecodeFour(n, rest);
    }
  }

  lemma DecodeTwo(n: int, rest: seq<byte>)
    requires 0x80 <= n < 0x800
    ensures var bs := [0xC0 + n / 0x40, 0x80 + n % 0x40] + rest;
            DecodeChar(bs) == Some((n as char, 2))
  {
    var bs: seq<byte> := [0xC0 + n / 0x40, 0x80 + n % 0x40] + rest;
    assert Payload(bs[1]) == n % 0x40;
    assert (bs[0] as int - 0xC0) * 0x40 + Payload(bs[1]) == n;
  }

  lemma DecodeThree(n: int, rest: seq<byte>)
    requires 0x800 <= n < 0x1_0000 && (n < 0xD800 || 0xE000 <= n)
    ensures var bs := [0xE0 + n / 0x1000, 0x80 + n / 0x40 % 0x40, 0x80 + n % 0x40] + rest;
            DecodeChar(bs) == Some((n as char, 3))
  {
    var bs: seq<byte> := [0xE0 + n / 0x1000, 0x80 + n / 0x40 % 0x40, 0x80 + n % 0x40] + rest;
    var hi, mid, lo := n / 0x1000, n / 0x40 % 0x40, n % 0x40;
    assert n / 0x40 == hi * 0x40 + mid;
    assert n == (n / 0x40) * 0x40 + lo;
    assert (bs[0] as int - 0xE0) * 0x1000 + Payload(bs[1]) * 0x40 + Payload(bs[2]) == n;
  }

  lemma DecodeFour(n: int, rest: seq<byte>)
    requires 0x1_0000 <= n < 0x11_0000
    ensures var bs := [0xF0 + n / 0x4_0000, 0x80 + n / 0x1000 % 0x40, 0x80 + n / 0x40 % 0x40, 0x80 + n % 0x40] + rest;
            DecodeChar(bs) == Some((n as char, 4))
  {
    var bs: seq<byte> := [0xF0 + n / 0x4_0000, 0x80 + n / 0x1000 % 0x40, 0x80 + n / 0x40 % 0x40, 0x80 + n % 0x40] + rest;
    var top, hi, mid, lo := n / 0x4_0000, n / 0x1000 % 0x40, n / 0x40 % 0x40, n % 0x40;
    assert n / 0x1000 == top * 0x40 + hi;
    assert n / 0x40 == (n / 0x1000) * 0x40 + mid;
    assert n == (n / 0x40) * 0x40 + lo;
    assert (bs[0] as int - 0xF0) * 0x4_0000 + Payload(bs[1]) * 0x1000 + Payload(bs[2]) * 0x40 + Payload(bs[3]) == n;
  }

  /** Decoding gives back every string that was encoded: the bytes stored
      for a text note hold exactly that text. */
  lemma {:induction false} Utf8RoundTrip(s: string)
    ensures Utf8Decode(Utf8(s)) == Some(s)
  {
    if s != [] {
      var e := EncodeChar(s[0]);
      var tail := Utf8(s[1..]);
      DecodeEncodeChar(s[0], tail);
      Utf8RoundTrip(s[1..]);
      assert (e + tail)[|e|..] == tail;
      assert [s[0]] + s[1..] == s;
    }
  }

  /** Every character takes at least one and at most four bytes, so only
      the empty string encodes to no bytes. */
  lemma {:induction false} Utf8Length(s: string)
    ensures |s| <= |Utf8(s)| <= 4 * |s|
  {
    if s != [] {
      Utf8Length(s[1..]);
    }
  }

  /** The BLOB bound for `notes`: a non-empty string becomes its UTF-8 bytes, a Buffer (truthy even
      when empty) is kept, anything else is NULL. */
  function NotesBlob(notes: Field<Notes>): Option<seq<byte>> {
    match notes
    case Present(Text(s)) => if s != "" then Some(Utf8(s)) else None
    case Present(Buffer(bytes)) => Some(bytes)
    case _ => None
  }

  /** The stored notes are NULL exactly when the notes were missing, `null`
      or the empty string; stored text decodes back to the text sent. */
  lemma NotesBlobSpec(notes: Field<Notes>)
    ensures NotesBlob(notes).None? <==> (notes.Absent? || notes.Null? || notes == Present(Text("")))
    ensures notes.Present? && notes.value.Text? && notes.value.text != "" ==>
              NotesBlob(notes).Some? && Utf8Decode(NotesBlob(notes).value) == Some(notes.value.text)
    ensures notes.Present? && notes.value.Buffer? ==> NotesBlob(notes) == Some(notes.value.bytes)
  {
    if notes.Present? && notes.value.Text? {
      Utf8RoundTrip(notes.value.text);
    }
  }

  /** The parameters of the `INSERT` statement, `None` where a `null` or
      `undefined` is bound (both bind as SQL NULL). */
  datatype Params = Params(userId: Option<string>, timestamp: Option<int>, heartRate: Option<int>,
                           bloodPressure: Option<string>, notes: Option<seq<byte>>)

  function Bind<T>(f: Field<T>): Option<T> {
    if f.Present? then Some(f.value) else None
  }

  /** Every field bound to a NOT NULL column has a value. */
  predicate Complete(e: RecordEntry) {
    e.userId.Present? && e.timestamp.Present? && e.heartRate.Present? && e.bloodPressure.Present?
  }

  /** The parameters a handler binds for one entry; they violate no NOT
      NULL constraint exactly when the entry is complete, and then the row
      is stored under the entry's `user_id`. */
  function ParamsOf(e: RecordEntry): (p: Params)
    ensures NullColumn(p).None? <==> Complete(e)
    ensures Complete(e) ==> RowOf(p).userId == e.userId.value
  {
    Params(Bind(e.userId), Bind(e.timestamp), Bind(e.heartRate), Bind(e.bloodPressure), NotesBlob(e.notes))
  }

  /** An error thrown by `db.run` or `db.get`: a NOT NULL violation on a
      column, the violation of the primary key, or any other fault of the
      database (busy, I/O, wrong key), whose code is not a constraint code. */
  datatype DbError = NotNullViolation(column: string) | UniqueViolation | Fault(message: string)

  /** The `message` of the error, as the 500 responses report it. */
  function MessageOf(e: DbError): string {
    match e
    case NotNullViolation(column) => "SQLITE_CONSTRAINT: NOT NULL constraint failed: records." + column
    case UniqueViolation => "SQLITE_CONSTRAINT: UNIQUE constraint failed: records.user_id"
    case Fault(message) => message
  }

  /** The test the handlers use to answer 409: the code is
      `SQLITE_CONSTRAINT` and the message names the primary key of
      `records`. Of the errors this table can raise, only the primary-key
      violation passes it. */
  predicate IsDuplicateUserId(e: DbError) {
    e.UniqueViolation?
  }

  /** The first NOT NULL column, in table order, that is bound to NULL. */
  function NullColumn(p: Params): (r: Option<string>)
    ensures r.None? <==> p.userId.Some? && p.timestamp.Some? && p.heartRate.Some? && p.bloodPressure.Some?
  {
    if p.userId.None? then Some("user_id")
    else if p.timestamp.None? then Some("timestamp")
    else if p.heartRate.None? then Some("heart_rate")
    else if p.bloodPressure.None? then Some("blood_pressure")
    else None
  }

  function RowOf(p: Params): Row
    requires NullColumn(p).None?
  {
    Row(p.userId.value, p.timestamp.value, p.heartRate.value, p.bloodPressure.value, p.notes)
  }

  /** A plain `INSERT INTO records`: NOT NULL first, then the primary key. */
  function Insert(t: Table, p: Params): Result<Table, DbError> {
    match NullColumn(p)
    case Some(column) => Err(NotNullViolation(column))
    case None =>
      if p.userId.value in t then Err(UniqueViolation)
      else Ok(t[p.userId.value := RowOf(p)])
  }

  /** `INSERT ... ON CONFLICT(user_id) DO UPDATE SET` every other column
      from `excluded`: NOT NULL still applies, a conflict overwrites. */
  function Upsert(t: Table, p: Params): Result<Table, DbError> {
    match NullColumn(p)
    case Some(column) => Err(NotNullViolation(column))
    case None => Ok(t[p.userId.value := RowOf(p)])
  }

  /** The two statements and what they promise: both fail with a NOT NULL
      error exactly when a NOT NULL column is NULL; otherwise the insert
      fails with the duplicate-key error exactly when the key is taken,
      the upsert never fails; a success stores the row under its key and
      changes no other key. */
  lemma InsertSpec(t: Table, p: Params)
    ensures NullColumn(p).Some? ==>
              Insert(t, p) == Err(NotNullViolation(NullColumn(p).value)) && Upsert(t, p) == Insert(t, p)
    ensures NullColumn(p).None? ==>
              && (Insert(t, p).Err? <==> p.userId.value in t)
              && (Insert(t, p).Err? ==> Insert(t, p).error == UniqueViolation)
              && Upsert(t, p).Ok?
    ensures forall r :: r in [Insert(t, p), Upsert(t, p)] && r.Ok? ==>
              && r.value.Keys == t.Keys + {p.userId.value}
              && r.value[p.userId.value] == RowOf(p)
              && (forall k :: k in t && k != p.userId.value ==> r.value[k] == t[k])
  {
  }

  /** Every row is stored under its own `user_id`: the primary key. */
  predicate KeysMatch(t: Table) {
    forall k :: k in t ==> t[k].userId == k
  }

  /** Both statements keep every row under its own key. */
  lemma InsertKeepsKeys(t: Table, p: Params)
    requires KeysMatch(t)
    ensures Insert(t, p).Ok? ==> KeysMatch(Insert(t, p).value)
    ensures Upsert(t, p).Ok? ==> KeysMatch(Upsert(t, p).value)
  {
  }

  /** The JSON a handler sends. */
  datatype Reply =
    | Message(message: string)
    | Inserted(message: string, userId: string)
    | Failed(message: string, error: string)
    | Found(record: Row)
    | BatchInserted(message: string, count: nat)

  /** The status code and JSON body of a response. */
  datatype Response = Response(status: int, reply: Reply)

  const MissingFieldsMessage: string := "Missing required fields: user_id, timestamp, heart_rate, blood_pressure"
  const NotFoundMessage: string := "Record not found"
  const RetrieveFailedMessage: string := "Error retrieving record"

  /** `getRecordByUserId`, identical in both services: the stored row, a
      404 when there is none, a 500 when the query fails. `fault` is the
      message of an error the database raises for its own reasons. */
  function GetOutcome(t: Table, userId: string, fault: Option<string>): Response {
    match fault
    case Some(message) => Response(500, Failed(RetrieveFailedMessage, message))
    case None =>
      if userId in t then Response(200, Found(t[userId]))
      else Response(404, Message(NotFoundMessage))
  }

  /** A lookup answers 200 exactly when the key is stored, and then with
      the row stored under it, whose `user_id` is the one asked for; 404
      exactly when it is not; a failed query answers 500 with its message. */
  lemma GetOutcomeSpec(t: Table, userId: string, fault: Option<string>)
    requires KeysMatch(t)
    ensures GetOutcome(t, userId, fault).status == 200 <==> fault.None? && userId in t
    ensures GetOutcome(t, userId, fault).status == 200 ==>
              GetOutcome(t, userId, fault).reply == Found(t[userId]) && t[userId].userId == userId
    ensures GetOutcome(t, userId, fault).status == 404 <==> fault.None? && userId !in t
    ensures fault.Some? ==> GetOutcome(t, userId, fault) == Response(500, Failed(RetrieveFailedMessage, fault.value))
  {
  }
}
