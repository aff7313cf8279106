/** The flat reply of the session-list script: a total, then ten text fields per session. */
module SessionList {
  import opened Domain
  import opened Decimal

  datatype Value = Integer(n: int) | Str(s: string) | Other

  datatype Session = Session(
    id: string, user: string, device: string, ip: string, currentJti: string,
    credentialVersion: int, sessionGeneration: int, createdAt: int, updatedAt: int, expiresAt: int)

  datatype Listing = Listing(sessions: seq<Session>, total: int)

  const FIELDS: nat := 10

  function SessionOf(fields: seq<string>): Option<Session>
    requires |fields| == FIELDS
  {
    var version, generation := ParseInt64(fields[5]), ParseInt64(fields[6]);
    var created, updated, expires := ParseInt64(fields[7]), ParseInt64(fields[8]), ParseInt64(fields[9]);
    if version.None? || version.value <= 0 || generation.None? || generation.value <= 0 then None
    else if created.None? || updated.None? || expires.None? then None
    else
      Some(Session(fields[0], fields[1], fields[2], fields[3], fields[4], version.value, generation.value,
        created.value, updated.value, expires.value))
  }

  predicate AllText(values: seq<Value>) {
    forall i :: 0 <= i < |values| ==> values[i].Str?
  }

  function TextOf(values: seq<Value>): seq<string>
    requires AllText(values)
  {
    seq(|values|, i requires 0 <= i < |values| => values[i].s)
  }

  function RowOf(values: seq<Value>): Option<Session>
    requires |values| == FIELDS
  {
    if AllText(values) then SessionOf(TextOf(values)) else None
  }

  /** Row `k`: the ten values behind the total and `k` rows. */
  function RowAt(values: seq<Value>, k: nat): Option<Session>
    requires 1 + (k + 1) * FIELDS <= |values|
  {
    RowOf(values[1 + k * FIELDS..1 + (k + 1) * FIELDS])
  }

  /** The replies that decode: a total that is not negative, and whole valid rows. */
  predicate Accepted(values: seq<Value>) {
    && values != [] && values[0].Integer? && values[0].n >= 0
    && (|values| - 1) % FIELDS == 0
    && forall k :: 0 <= k < (|values| - 1) / FIELDS ==> RowAt(values, k).Some?
  }

  function Decoded(values: seq<Value>): Listing
    requires Accepted(values)
  {
    Listing(seq((|values| - 1) / FIELDS, k requires 0 <= k < (|values| - 1) / FIELDS => RowAt(values, k).value), values[0].n)
  }

  /** Copies ten fields at a time, stopping at the first that is not text or not a number. */
  method DecodeSessionList(result: seq<Value>) returns (listing: Option<Listing>)
    ensures listing.Some? <==> Accepted(result)
    ensures listing.Some? ==> listing.value == Decoded(result)
    ensures listing.Some? ==> |result| == 1 + FIELDS * |listing.value.sessions|
  {
    if |result| == 0 {
      return None;
    }
    if !result[0].Integer? || result[0].n < 0 {
      return None;
    }
    if (|result| - 1) % FIELDS != 0 {
      return None;
    }
    var sessions: seq<Session> := [];
    var i := 1;
    while i < |result|
      invariant i == 1 + |sessions| * FIELDS <= |result|
      invariant Yields(RowsOf(result), sessions)
      decreases |result| - i
    {
      RowStart(result, |sessions|, i);
      var session := DecodeRow(result, i);
      RowHere(result, |sessions|, i);
      if session.None? {
        BadRow(result, |sessions|);
        return None;
      }
      YieldsOneMore(RowsOf(result), sessions, session.value);
      sessions := sessions + [session.value];
      i := i + FIELDS;
    }
    RowsAreAll(result, sessions);
    listing := Some(Listing(sessions, result[0].n));
  }

  /** The rows of a reply by their number; there is nothing behind the last one. */
  function RowsOf(values: seq<Value>): nat -> Option<Session> {
    (k: nat) => if 1 + (k + 1) * FIELDS <= |values| then RowAt(values, k) else None
  }

  /** The first rows decode to `items`. */
  predicate Yields<T(==)>(rows: nat -> Option<T>, items: seq<T>) {
    forall k :: 0 <= k < |items| ==> rows(k) == Some(items[k])
  }

  lemma YieldsOneMore<T>(rows: nat -> Option<T>, items: seq<T>, item: T)
    requires Yields(rows, items) && rows(|items|) == Some(item)
    ensures Yields(rows, items + [item])
  {
    assert (items + [item])[|items|] == item;
  }

  lemma RowStart(values: seq<Value>, k: nat, i: nat)
    requires i == 1 + k * FIELDS < |values| && (|values| - 1) % FIELDS == 0
    ensures i + FIELDS == 1 + (k + 1) * FIELDS <= |values| && k < (|values| - 1) / FIELDS
  {
    RowsFit(|values| - 1, k);
  }

  lemma RowHere(values: seq<Value>, k: nat, i: nat)
    requires i == 1 + k * FIELDS && i + FIELDS == 1 + (k + 1) * FIELDS <= |values|
    ensures RowsOf(values)(k) == RowAt(values, k) == RowOf(values[i..i + FIELDS])
  {
    SameSlice(values, i, i + FIELDS, 1 + k * FIELDS, 1 + (k + 1) * FIELDS);
  }

  lemma SameSlice(values: seq<Value>, a: nat, b: nat, c: nat, d: nat)
    requires a == c <= b == d <= |values|
    ensures values[a..b] == values[c..d]
  {
  }

  lemma RowsFit(length: nat, k: nat)
    requires length % FIELDS == 0 && k * FIELDS < length
    ensures (k + 1) * FIELDS <= length && k < length / FIELDS
  {
  }

  lemma RowsAreAll(values: seq<Value>, sessions: seq<Session>)
    requires values != [] && values[0].Integer? && values[0].n >= 0
    requires Yields(RowsOf(values), sessions) && |values| == 1 + |sessions| * FIELDS
    ensures Accepted(values) && Decoded(values) == Listing(sessions, values[0].n)
  {
    assert (|values| - 1) / FIELDS == |sessions|;
    forall k | 0 <= k < |sessions|
      ensures 1 + (k + 1) * FIELDS <= |values| && RowAt(values, k) == Some(sessions[k])
    {
      assert RowsOf(values)(k) == Some(sessions[k]);
    }
  }

  lemma BadRow(values: seq<Value>, k: nat)
    requires 1 + (k + 1) * FIELDS <= |values| && k < (|values| - 1) / FIELDS && RowAt(values, k).None?
    ensures !Accepted(values)
  {
  }

  predicate TextThrough(values: seq<Value>, i: nat, fields: seq<string>) {
    i + |fields| <= |values| && forall j :: 0 <= j < |fields| ==> values[i + j] == Str(fields[j])
  }

  lemma RowIsText(values: seq<Value>, i: nat, fields: seq<string>)
    requires |fields| == FIELDS && TextThrough(values, i, fields)
    ensures RowOf(values[i..i + FIELDS]) == SessionOf(fields)
  {
    var row := values[i..i + FIELDS];
    assert forall j :: 0 <= j < FIELDS ==> row[j] == values[i + j] == Str(fields[j]);
    assert TextOf(row) == fields;
  }

  method DecodeRow(result: seq<Value>, i: nat) returns (session: Option<Session>)
    requires i + FIELDS <= |result|
    ensures session == RowOf(result[i..i + FIELDS])
  {
    var fields := new string[FIELDS];
    for fieldIndex := 0 to FIELDS
      invariant TextThrough(result, i, fields[..fieldIndex])
    {
      if !result[i + fieldIndex].Str? {
        assert result[i..i + FIELDS][fieldIndex] == result[i + fieldIndex];
        return None;
      }
      fields[fieldIndex] := result[i + fieldIndex].s;
    }
    RowIsText(result, i, fields[..FIELDS]);
    assert fields[..] == fields[..FIELDS];
    session := SessionOf(fields[..]);
  }

  // ----- the encoding -----

  function Texts(s: Session): (texts: seq<string>)
    ensures |texts| == FIELDS
  {
    [s.id, s.user, s.device, s.ip, s.currentJti, PrintInt(s.credentialVersion), PrintInt(s.sessionGeneration),
     PrintInt(s.createdAt), PrintInt(s.updatedAt), PrintInt(s.expiresAt)]
  }

  function Fields(s: Session): (values: seq<Value>)
    ensures |values| == FIELDS
  {
    seq(FIELDS, i requires 0 <= i < FIELDS => Str(Texts(s)[i]))
  }

  function Rows(sessions: seq<Session>): (values: seq<Value>)
    ensures |values| == FIELDS * |sessions|
  {
    if sessions == [] then [] else Fields(sessions[0]) + Rows(sessions[1..])
  }

  function Encode(listing: Listing): seq<Value> {
    [Integer(listing.total)] + Rows(listing.sessions)
  }

  predicate Is64Bit(n: int) {
    MIN_INT64 <= n <= MAX_INT64
  }

  /** Positive version and generation, and 64-bit numbers throughout. */
  predicate Storable(s: Session) {
    && 0 < s.credentialVersion <= MAX_INT64 && 0 < s.sessionGeneration <= MAX_INT64
    && Is64Bit(s.createdAt) && Is64Bit(s.updatedAt) && Is64Bit(s.expiresAt)
  }

  lemma RowRoundTrip(s: Session)
    ensures RowOf(Fields(s)) == if Storable(s) then Some(s) else None
  {
    TextsRoundTrip(s);
    FieldsText(s);
  }

  lemma FieldsText(s: Session)
    ensures AllText(Fields(s)) && TextOf(Fields(s)) == Texts(s)
  {
  }

  lemma TextsRoundTrip(s: Session)
    ensures SessionOf(Texts(s)) == if Storable(s) then Some(s) else None
  {
    ParsePrintInt(s.credentialVersion);
    ParsePrintInt(s.sessionGeneration);
    ParsePrintInt(s.createdAt);
    ParsePrintInt(s.updatedAt);
    ParsePrintInt(s.expiresAt);
  }

  lemma BehindHead(head: seq<Value>, rest: seq<Value>, lo: nat, hi: nat)
    requires lo <= hi <= |rest|
    ensures (head + rest)[|head| + lo..|head| + hi] == rest[lo..hi]
  {
  }

  lemma {:induction false} RowsAt(sessions: seq<Session>, k: nat)
    requires k < |sessions|
    ensures (k + 1) * FIELDS <= |Rows(sessions)|
    ensures Rows(sessions)[k * FIELDS..(k + 1) * FIELDS] == Fields(sessions[k])
    decreases k
  {
    if k > 0 {
      RowsAt(sessions[1..], k - 1);
      BehindHead(Fields(sessions[0]), Rows(sessions[1..]), (k - 1) * FIELDS, k * FIELDS);
    }
  }

  lemma EncodedRow(listing: Listing, k: nat)
    requires k < |listing.sessions|
    ensures 1 + (k + 1) * FIELDS <= |Encode(listing)|
    ensures RowAt(Encode(listing), k)
         == if Storable(listing.sessions[k]) then Some(listing.sessions[k]) else None
  {
    RowsAt(listing.sessions, k);
    RowRoundTrip(listing.sessions[k]);
    BehindHead([Integer(listing.total)], Rows(listing.sessions), k * FIELDS, (k + 1) * FIELDS);
  }

  /** Decoding inverts the encoding for every list of storable sessions, in order, and
      the encoding of any other list is refused. */
  lemma DecodeEncode(listing: Listing)
    ensures Accepted(Encode(listing))
       <==> listing.total >= 0 && forall k :: 0 <= k < |listing.sessions| ==> Storable(listing.sessions[k])
    ensures Accepted(Encode(listing)) ==> Decoded(Encode(listing)) == listing
  {
    var values := Encode(listing);
    if k :| 0 <= k < |listing.sessions| && !Storable(listing.sessions[k]) {
      EncodedRow(listing, k);
      BadRow(values, k);
    } else if listing.total >= 0 {
      forall k | 0 <= k < |listing.sessions| ensures RowsOf(values)(k) == Some(listing.sessions[k]) {
        EncodedRow(listing, k);
      }
      RowsAreAll(values, listing.sessions);
    }
  }

  /** What was decoded, whatever spelling its numbers had, can be encoded and decoded again. */
  lemma DecodedIsStorable(values: seq<Value>)
    requires Accepted(values)
    ensures Accepted(Encode(Decoded(values))) && Decoded(Encode(Decoded(values))) == Decoded(values)
    ensures |values| == 1 + FIELDS * |Decoded(values).sessions|
  {
    DecodeEncode(Decoded(values));
  }
}
