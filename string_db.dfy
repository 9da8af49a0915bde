/**
 * The two string databases of the state history sink (subpaths and string
 * values): a bidirectional map between strings and quarks, the get-or-insert
 * interning of StateHistorySink::getQuark, the reverse lookup of
 * getQuarkString, and the binary image that writeStringDb produces.
 */
module StringDbs {
  import opened Wrappers
  import opened StateValues

  /** A bimap: `left` is the string-to-quark view, `right` the quark-to-string view. */
  datatype StringDb = StringDb(left: map<string, Quark>, right: map<Quark, string>)

  const EmptyDb: StringDb := StringDb(map[], map[])

  /** Both views describe the same set of pairs. */
  ghost predicate Consistent(db: StringDb) {
    (forall s | s in db.left :: db.left[s] in db.right && db.right[db.left[s]] == s)
    && (forall q | q in db.right :: db.right[q] in db.left && db.left[db.right[q]] == q)
  }

  /** Every quark handed out so far is below the counter. */
  ghost predicate Below(db: StringDb, next: nat) {
    forall q | q in db.right :: q < next
  }

  /** The quarks in use are exactly 0 .. next-1. */
  ghost predicate Dense(db: StringDb, next: nat) {
    forall q: nat :: q in db.right <==> q < next
  }

  ghost predicate Valid(db: StringDb, next: nat) {
    Consistent(db) && Dense(db, next)
  }

  /** What getQuark leaves behind: the database, the quark returned, the counter. */
  datatype Interned = Interned(db: StringDb, quark: Quark, next: nat)

  /**
   * StateHistorySink::getQuark: the quark of `value`, inserting the pair
   * (value, next) and advancing the counter when the string is new.
   */
  function GetQuark(db: StringDb, value: string, next: nat): (r: Interned)
    ensures value in r.db.left && r.db.left[value] == r.quark
    ensures value in db.left ==> r.db == db && r.next == next
    ensures value !in db.left ==> r.quark == next && r.next == next + 1
  {
    if value in db.left then
      Interned(db, db.left[value], next)
    else
      Interned(StringDb(db.left[value := next], db.right[next := value]), next, next + 1)
  }

  /** The error getQuarkString throws for a quark that was never handed out. */
  datatype WrongQuark = WrongQuark(quark: Quark)

  /** StateHistorySink::getQuarkString: the string of a quark, or WrongQuark. */
  function GetQuarkString(db: StringDb, quark: Quark): (r: Result<string, WrongQuark>)
    ensures r.Failure? <==> quark !in db.right
    ensures r.Failure? ==> r.error == WrongQuark(quark)
  {
    if quark in db.right then Success(db.right[quark]) else Failure(WrongQuark(quark))
  }

  /** Interning the same string a second time returns the same quark and leaves the counter alone. */
  lemma InternTwice(db: StringDb, value: string, next: nat)
    ensures var r1 := GetQuark(db, value, next);
            var r2 := GetQuark(r1.db, value, r1.next);
            r2.quark == r1.quark && r2.next == r1.next && r2.db == r1.db
  {
  }

  /** Interning keeps the bimap consistent and the quarks dense, and issues no quark twice. */
  lemma InternValid(db: StringDb, value: string, next: nat)
    requires Valid(db, next)
    ensures var r := GetQuark(db, value, next);
            Valid(r.db, r.next) && r.quark < r.next
            && (forall q | q in db.right :: q in r.db.right && r.db.right[q] == db.right[q])
  {
    var r := GetQuark(db, value, next);
    if value !in db.left {
      assert next !in db.right;
      forall q: nat ensures q in r.db.right <==> q < r.next {
        assert q in db.right <==> q < next;
      }
    }
  }

  /** The quark an interned string receives gives the string back. */
  lemma InternRoundTrip(db: StringDb, value: string, next: nat)
    requires Consistent(db) && Below(db, next)
    ensures var r := GetQuark(db, value, next);
            GetQuarkString(r.db, r.quark) == Success(value)
            && Consistent(r.db) && Below(r.db, r.next) && r.quark < r.next
  {
  }

  /** A database where nothing was interned knows no quark. */
  lemma EmptyKnowsNothing(quark: Quark)
    ensures GetQuarkString(EmptyDb, quark) == Failure(WrongQuark(quark))
  {
  }

  lemma EmptyValid()
    ensures Valid(EmptyDb, 0)
  {
  }

  /** Interning the strings of `values` in order. */
  function InternAll(db: StringDb, values: seq<string>, next: nat): (r: Interned)
    decreases |values|
  {
    if values == [] then Interned(db, 0, next)
    else
      var first := GetQuark(db, values[0], next);
      InternAll(first.db, values[1..], first.next)
  }

  /** One interning step keeps the database valid and counts one more key when the string is new. */
  lemma InternStep(db: StringDb, value: string, next: nat)
    requires Valid(db, next) && |db.left| == next
    ensures var r := GetQuark(db, value, next);
            Valid(r.db, r.next) && |r.db.left| == r.next
  {
    InternValid(db, value, next);
  }

  /** One interning step adds the string to the keys. */
  lemma InternStepKeys(db: StringDb, value: string, next: nat)
    ensures GetQuark(db, value, next).db.left.Keys == db.left.Keys + {value}
  {
  }

  /**
   * Interning any sequence of strings into a fresh database hands out
   * exactly the quarks 0 .. n-1, where n is the number of distinct strings.
   */
  lemma InternAllDense(db: StringDb, values: seq<string>, next: nat)
    requires Valid(db, next) && |db.left| == next
    ensures var r := InternAll(db, values, next);
            Valid(r.db, r.next) && |r.db.left| == r.next
            && r.db.left.Keys == db.left.Keys + ValueSet(values)
  {
    InternAllValid(db, values, next);
    InternAllKeys(db, values, next);
  }

  lemma {:induction false} InternAllValid(db: StringDb, values: seq<string>, next: nat)
    requires Valid(db, next) && |db.left| == next
    ensures var r := InternAll(db, values, next);
            Valid(r.db, r.next) && |r.db.left| == r.next
    decreases |values|
  {
    if values != [] {
      var first := GetQuark(db, values[0], next);
      InternStep(db, values[0], next);
      InternAllValid(first.db, values[1..], first.next);
    }
  }

  /** The keys after interning a sequence are the keys before plus its strings. */
  lemma {:induction false} InternAllKeys(db: StringDb, values: seq<string>, next: nat)
    ensures InternAll(db, values, next).db.left.Keys == db.left.Keys + ValueSet(values)
    decreases |values|
  {
    if values != [] {
      var first := GetQuark(db, values[0], next);
      InternStepKeys(db, values[0], next);
      InternAllKeys(first.db, values[1..], first.next);
      ValueSetCons(values);
    }
  }

  function ValueSet(values: seq<string>): set<string> {
    set v | v in values
  }

  lemma ValueSetCons(values: seq<string>)
    requires values != []
    ensures ValueSet(values) == {values[0]} + ValueSet(values[1..])
  {
    assert values == [values[0]] + values[1..];
  }

  lemma InternAllFromEmpty(values: seq<string>)
    ensures var r := InternAll(EmptyDb, values, 0);
            Valid(r.db, r.next) && r.next == |ValueSet(values)|
  {
    EmptyValid();
    InternAllDense(EmptyDb, values, 0);
  }

  // ---------------------------------------------------------------------
  // Binary image written by writeStringDb
  // ---------------------------------------------------------------------

  type byte = x: int | 0 <= x < 256

  /** sizeof(quark_t): quarks are written as 4 bytes. */
  const QUARK_SIZE: nat := 4

  /**
   * A std::string is a string of bytes; each character of a model string
   * stands for one byte.
   */
  function ByteOf(c: char): byte {
    (c as int) % 256
  }

  function StringBytes(s: string): (b: seq<byte>)
    ensures |b| == |s| && forall i :: 0 <= i < |s| ==> b[i] == ByteOf(s[i])
  {
    if s == [] then [] else [ByteOf(s[0])] + StringBytes(s[1..])
  }

  function ZeroBytes(k: nat): (b: seq<byte>)
    ensures |b| == k && forall i :: 0 <= i < k ==> b[i] == 0
  {
    if k == 0 then [] else [0] + ZeroBytes(k - 1)
  }

  /** The stream position after seekp((pos + sizeof(quark) - 1) & ~(sizeof(quark) - 1)). */
  function AlignUp(pos: nat): (r: nat)
    ensures r % QUARK_SIZE == 0 && pos <= r < pos + QUARK_SIZE
  {
    (pos + QUARK_SIZE - 1) / QUARK_SIZE * QUARK_SIZE
  }

  /** A quark as 4 little-endian bytes (the in-memory image of a 32-bit quark_t on the target). */
  function QuarkBytes(q: Quark): (b: seq<byte>)
    ensures |b| == QUARK_SIZE
  {
    var x := q % 0x1_0000_0000;
    var x1 := x / 256;
    var x2 := x1 / 256;
    [x % 256, x1 % 256, x2 % 256, x2 / 256]
  }

  /** The bytes one string/quark pair adds when the stream is at position `pos`. */
  function Record(s: string, q: Quark, pos: nat): (b: seq<byte>)
  {
    var strEnd := pos + |s| + 1;
    StringBytes(s) + [0] + ZeroBytes(AlignUp(strEnd) - strEnd) + QuarkBytes(q)
  }

  /** The whole file for the pairs in iteration order, the first record at offset 0. */
  function Image(entries: seq<(string, Quark)>): (b: seq<byte>)
    ensures |b| % QUARK_SIZE == 0
  {
    if entries == [] then []
    else Record(entries[0].0, entries[0].1, 0) + Image(entries[1..])
  }

  /** A record depends on the stream position only through its alignment. */
  lemma RecordShift(s: string, q: Quark, pos: nat)
    requires pos % QUARK_SIZE == 0
    ensures Record(s, q, pos) == Record(s, q, 0)
  {
    var k := |s| + 1;
    assert AlignUp(pos + k) - (pos + k) == AlignUp(k) - k;
  }

  /** Appending a record at the current end of the file, as the write loop does, extends the image. */
  lemma {:induction false} ImageSnoc(entries: seq<(string, Quark)>, e: (string, Quark))
    ensures Image(entries + [e]) == Image(entries) + Record(e.0, e.1, |Image(entries)|)
    decreases |entries|
  {
    RecordShift(e.0, e.1, |Image(entries)|);
    if entries == [] {
      assert entries + [e] == [e];
      assert Image([e]) == Record(e.0, e.1, 0) + Image([]);
    } else {
      var head := Record(entries[0].0, entries[0].1, 0);
      var tail := entries[1..];
      assert (entries + [e])[0] == entries[0];
      assert (entries + [e])[1..] == tail + [e];
      assert Image(entries + [e]) == head + Image(tail + [e]);
      ImageSnoc(tail, e);
      RecordShift(e.0, e.1, |Image(tail)|);
      assert Image(entries) == head + Image(tail);
    }
  }

  /**
   * Layout of one record at an aligned position: the string bytes, a NUL,
   * zero padding up to the next multiple of the quark size, then the quark,
   * which therefore starts at an aligned offset.
   */
  lemma RecordLayout(s: string, q: Quark, pos: nat)
    requires pos % QUARK_SIZE == 0
    ensures var r := Record(s, q, pos);
            var quarkAt := |r| - QUARK_SIZE;
            r[..|s|] == StringBytes(s) && r[|s|] == 0
            && (forall i :: |s| < i < quarkAt ==> r[i] == 0)
            && (pos + quarkAt) % QUARK_SIZE == 0
            && quarkAt - (|s| + 1) == (QUARK_SIZE - (|s| + 1) % QUARK_SIZE) % QUARK_SIZE
            && r[quarkAt..] == QuarkBytes(q)
  {
    var k := |s| + 1;
    var pad := AlignUp(pos + k) - (pos + k);
    AlignPad(pos, k);
    RecordParts(StringBytes(s), ZeroBytes(pad), QuarkBytes(q));
  }

  /** The padding after a string at an aligned position fills up to the next multiple of the quark size. */
  lemma AlignPad(pos: nat, k: nat)
    requires pos % QUARK_SIZE == 0
    ensures AlignUp(pos + k) - (pos + k) == (QUARK_SIZE - k % QUARK_SIZE) % QUARK_SIZE
  {
    var m, a, b := pos / QUARK_SIZE, k / QUARK_SIZE, k % QUARK_SIZE;
    assert pos + k + QUARK_SIZE - 1 == QUARK_SIZE * (m + a) + (b + QUARK_SIZE - 1);
    assert (pos + k + QUARK_SIZE - 1) / QUARK_SIZE == m + a + (if b == 0 then 0 else 1);
  }

  /** Where the parts of a record sit: string bytes, the NUL, the zero padding and the quark. */
  lemma RecordParts(str: seq<byte>, zeros: seq<byte>, quark: seq<byte>)
    requires (forall i :: 0 <= i < |zeros| ==> zeros[i] == 0) && |quark| == QUARK_SIZE
    ensures var r := str + [0] + zeros + quark;
            var quarkAt := |r| - QUARK_SIZE;
            r[..|str|] == str && r[|str|] == 0 && quarkAt == |str| + 1 + |zeros|
            && (forall i :: |str| < i < quarkAt ==> r[i] == 0)
            && r[quarkAt..] == quark
  {
    var r := str + [0] + zeros + quark;
    forall i | |str| < i < |r| - QUARK_SIZE
      ensures r[i] == 0
    {
      assert r[i] == zeros[i - |str| - 1];
    }
    assert r[..|str|] == str;
    assert r[|r| - QUARK_SIZE..] == quark;
  }

  // Reading an image back.

  function IndexOfZero(b: seq<byte>): (k: nat)
    ensures k <= |b|
    ensures forall i :: 0 <= i < k ==> b[i] != 0
    ensures k < |b| ==> b[k] == 0
  {
    if b == [] then 0 else if b[0] == 0 then 0 else 1 + IndexOfZero(b[1..])
  }

  function QuarkOfBytes(b: seq<byte>): nat
    requires |b| == QUARK_SIZE
  {
    var b0: int, b1: int, b2: int, b3: int := b[0], b[1], b[2], b[3];
    b0 + 256 * (b1 + 256 * (b2 + 256 * b3))
  }

  /** Decodes an image into (string bytes, quark) pairs; None if it is truncated. */
  function Decode(b: seq<byte>): Option<seq<(seq<byte>, nat)>>
    decreases |b|
  {
    if b == [] then Some([])
    else
      var n := IndexOfZero(b);
      var quarkAt := AlignUp(n + 1);
      if quarkAt + QUARK_SIZE > |b| then None
      else
        match Decode(b[quarkAt + QUARK_SIZE..])
        case None => None
        case Some(rest) => Some([(b[..n], QuarkOfBytes(b[quarkAt..quarkAt + QUARK_SIZE]))] + rest)
  }

  /** A string a C reader can get back: no NUL byte inside. */
  predicate NulFree(s: string) {
    forall i :: 0 <= i < |s| ==> ByteOf(s[i]) != 0
  }

  function Decoded(entries: seq<(string, Quark)>): seq<(seq<byte>, nat)> {
    if entries == [] then []
    else [(StringBytes(entries[0].0), (entries[0].1 % 0x1_0000_0000) as nat)] + Decoded(entries[1..])
  }

  lemma QuarkBytesRoundTrip(q: Quark)
    ensures QuarkOfBytes(QuarkBytes(q)) == q % 0x1_0000_0000
  {
  }

  /** Decoding a record followed by more bytes yields its pair followed by the rest. */
  lemma DecodeRecord(s: string, q: Quark, rest: seq<byte>)
    requires NulFree(s)
    ensures Decode(Record(s, q, 0) + rest)
         == match Decode(rest)
            case None => None
            case Some(more) => Some([(StringBytes(s), (q % 0x1_0000_0000) as nat)] + more)
  {
    var r := Record(s, q, 0);
    var b := r + rest;
    RecordLayout(s, q, 0);
    var quarkAt := AlignUp(|s| + 1);
    assert |r| == quarkAt + QUARK_SIZE;
    assert b[..|s|] == StringBytes(s);
    ZeroAt(b, |s|);
    assert b[quarkAt..quarkAt + QUARK_SIZE] == QuarkBytes(q);
    QuarkBytesRoundTrip(q);
    assert b[quarkAt + QUARK_SIZE..] == rest;
  }

  /**
   * The image can be read back: every NUL-free string comes back with its
   * quark (reduced to 32 bits, the width of quark_t).
   */
  lemma {:induction false} ImageRoundTrip(entries: seq<(string, Quark)>)
    requires forall i :: 0 <= i < |entries| ==> NulFree(entries[i].0)
    ensures Decode(Image(entries)) == Some(Decoded(entries))
    decreases |entries|
  {
    if entries != [] {
      ImageRoundTrip(entries[1..]);
      DecodeRecord(entries[0].0, entries[0].1, Image(entries[1..]));
    }
  }

  lemma {:induction false} ZeroAt(b: seq<byte>, k: nat)
    requires k < |b| && b[k] == 0 && forall i :: 0 <= i < k ==> b[i] != 0
    ensures IndexOfZero(b) == k
    decreases k
  {
    if k > 0 {
      ZeroAt(b[1..], k - 1);
    }
  }

  // Order of the left view: std::less<std::string>, i.e. byte-wise lexicographic.

  predicate LexLe(a: string, b: string) {
    a == [] || (b != [] && (a[0] < b[0] || (a[0] == b[0] && LexLe(a[1..], b[1..]))))
  }

  lemma {:induction false} LexLeTotal(a: string, b: string)
    ensures LexLe(a, b) || LexLe(b, a)
  {
    if a != [] && b != [] && a[0] == b[0] {
      LexLeTotal(a[1..], b[1..]);
    }
  }

  lemma {:induction false} LexLeTrans(a: string, b: string, c: string)
    requires LexLe(a, b) && LexLe(b, c)
    ensures LexLe(a, c)
  {
    if a != [] && a[0] == b[0] && b[0] == c[0] {
      LexLeTrans(a[1..], b[1..], c[1..]);
    }
  }

  predicate SortedByString(s: seq<(string, Quark)>) {
    forall i, j :: 0 <= i < j < |s| ==> LexLe(s[i].0, s[j].0)
  }

  function Insert(e: (string, Quark), s: seq<(string, Quark)>): (r: seq<(string, Quark)>)
    ensures multiset(r) == multiset(s) + multiset{e}
  {
    if s == [] || LexLe(e.0, s[0].0) then [e] + s
    else
      assert s == [s[0]] + s[1..];
      [s[0]] + Insert(e, s[1..])
  }

  lemma {:induction false} InsertSorted(e: (string, Quark), s: seq<(string, Quark)>)
    requires SortedByString(s)
    ensures SortedByString(Insert(e, s))
  {
    if s == [] {
    } else if LexLe(e.0, s[0].0) {
      var r := Insert(e, s);
      forall i, j | 0 <= i < j < |r| ensures LexLe(r[i].0, r[j].0) {
        if i == 0 && j > 1 {
          LexLeTrans(e.0, s[0].0, s[j - 1].0);
        }
      }
    } else {
      LexLeTotal(e.0, s[0].0);
      InsertSorted(e, s[1..]);
      var r := Insert(e, s);
      var t := Insert(e, s[1..]);
      assert r == [s[0]] + t;
      forall j | 0 <= j < |t| ensures LexLe(s[0].0, t[j].0) {
        assert t[j] in multiset(t);
        assert t[j] == e || t[j] in multiset(s[1..]);
        if t[j] != e {
          var k :| 0 <= k < |s[1..]| && s[1..][k] == t[j];
          assert s[k + 1] == t[j];
        }
      }
    }
  }

  /** Insertion sort on the string key. */
  function SortByString(s: seq<(string, Quark)>): (r: seq<(string, Quark)>)
    ensures multiset(r) == multiset(s)
  {
    if s == [] then []
    else
      assert s == [s[0]] + s[1..];
      Insert(s[0], SortByString(s[1..]))
  }

  lemma {:induction false} SortByStringSorted(s: seq<(string, Quark)>)
    ensures SortedByString(SortByString(s))
  {
    if s != [] {
      SortByStringSorted(s[1..]);
      InsertSorted(s[0], SortByString(s[1..]));
    }
  }

  /** The pairs of quarks from..next-1 that are in the database, in quark order. */
  function ListFrom(db: StringDb, from: nat, next: nat): (r: seq<(string, Quark)>)
    ensures forall e | e in r :: e.1 in db.right && db.right[e.1] == e.0 && from <= e.1 < next
    decreases next - from
  {
    if from >= next then []
    else if from in db.right then [(db.right[from], from)] + ListFrom(db, from + 1, next)
    else ListFrom(db, from + 1, next)
  }

  lemma {:induction false} ListFromComplete(db: StringDb, from: nat, next: nat, q: Quark)
    requires q in db.right && from <= q < next
    ensures (db.right[q], q) in ListFrom(db, from, next)
    decreases next - from
  {
    if from < q {
      ListFromComplete(db, from + 1, next, q);
    }
  }

  /** The pairs of the left view in its iteration order: ascending by string. */
  function Entries(db: StringDb, next: nat): (r: seq<(string, Quark)>)
  {
    SortByString(ListFrom(db, 0, next))
  }

  /** The entries are sorted by string and are exactly the pairs of the database. */
  lemma EntriesExact(db: StringDb, next: nat)
    requires Consistent(db) && Below(db, next)
    ensures SortedByString(Entries(db, next))
    ensures forall e :: e in Entries(db, next) <==> e.0 in db.left && db.left[e.0] == e.1
  {
    SortByStringSorted(ListFrom(db, 0, next));
    var l := ListFrom(db, 0, next);
    var r := Entries(db, next);
    assert multiset(r) == multiset(l);
    forall e ensures e in r <==> e.0 in db.left && db.left[e.0] == e.1 {
      assert e in r <==> e in multiset(r);
      assert e in l <==> e in multiset(l);
      if e.0 in db.left && db.left[e.0] == e.1 {
        ListFromComplete(db, 0, next, e.1);
      }
    }
  }

  /**
   * StateHistorySink::writeStringDb: the bytes of the file written for
   * `db`, one record per pair, in the left view's order.
   */
  method WriteStringDb(db: StringDb, next: nat) returns (output: seq<byte>)
    ensures output == Image(Entries(db, next))
  {
    output := WriteRecords(Entries(db, next));
  }

  /** The write loop: each record goes at the current end of the stream. */
  method WriteRecords(entries: seq<(string, Quark)>) returns (output: seq<byte>)
    ensures output == Image(entries)
  {
    output := [];
    var i := 0;
    while i < |entries|
      invariant 0 <= i <= |entries|
      invariant output == Image(entries[..i])
    {
      var s, q := entries[i].0, entries[i].1;
      ImageSnoc(entries[..i], entries[i]);
      assert entries[..i + 1] == entries[..i] + [entries[i]];
      output := output + Record(s, q, |output|);
      i := i + 1;
    }
    assert entries[..i] == entries;
  }
}
