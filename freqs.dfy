/** The frequency table: Rust's ordered map `BTreeMap<String, u32>` and the
    fixed little-endian header that `get_freqs` (src/main.rs) reads it from. */
module Freqs {
  import opened Common

  /** Rust's `Ord` on `String`: lexicographic (comparing UTF-8 bytes orders
      strings the same way as comparing their characters). */
  predicate Less(a: string, b: string) {
    if a == [] then b != []
    else b != [] && (a[0] < b[0] || (a[0] == b[0] && Less(a[1..], b[1..])))
  }

  lemma {:induction false} LessIrreflexive(a: string)
    ensures !Less(a, a)
  {
    if a != [] {
      LessIrreflexive(a[1..]);
    }
  }

  lemma {:induction false} LessTransitive(a: string, b: string, d: string)
    requires Less(a, b) && Less(b, d)
    ensures Less(a, d)
  {
    if a != [] && a[0] == b[0] && b[0] == d[0] {
      LessTransitive(a[1..], b[1..], d[1..]);
    }
  }

  lemma {:induction false} LessTotal(a: string, b: string)
    requires a != b
    ensures Less(a, b) || Less(b, a)
  {
    if a != [] && b != [] && a[0] == b[0] {
      assert a == [a[0]] + a[1..] && b == [b[0]] + b[1..];
      LessTotal(a[1..], b[1..]);
    }
  }

  /** One map entry: a symbol and its frequency. */
  datatype Entry = Entry(key: string, freq: nat)

  /** The entries of a `BTreeMap`, as its iterator yields them: keys strictly
      ascending, hence distinct. */
  ghost predicate Ascending(m: seq<Entry>) {
    forall i, j :: 0 <= i < j < |m| ==> Less(m[i].key, m[j].key)
  }

  /** `BTreeMap::insert`: binds `k` to `v`, replacing an existing binding of
      `k` and keeping the keys in order. */
  function Insert(m: seq<Entry>, k: string, v: nat): seq<Entry> {
    if m == [] then [Entry(k, v)]
    else if m[0].key == k then [Entry(k, v)] + m[1..]
    else if Less(k, m[0].key) then [Entry(k, v)] + m
    else [m[0]] + Insert(m[1..], k, v)
  }

  /** Inserting into an ordered map keeps it ordered; afterwards it holds
      the new binding and every old binding of another key, and nothing
      else. */
  lemma {:induction false} InsertSpec(m: seq<Entry>, k: string, v: nat)
    requires Ascending(m)
    ensures Ascending(Insert(m, k, v))
    ensures forall e :: e in Insert(m, k, v) <==> e == Entry(k, v) || (e in m && e.key != k)
  {
    if m == [] {
    } else if m[0].key == k {
      AscendingTail(m);
    } else if Less(k, m[0].key) {
      forall j | 0 <= j < |m|
        ensures Less(k, m[j].key) && m[j].key != k
      {
        if j > 0 { LessTransitive(k, m[0].key, m[j].key); }
        LessIrreflexive(k);
      }
    } else {
      LessTotal(k, m[0].key);
      InsertSpec(m[1..], k, v);
      var rest := Insert(m[1..], k, v);
      assert forall e :: e in rest ==> Less(m[0].key, e.key);
    }
  }

  /** The head key of an ascending sequence is below every later key. */
  lemma AscendingTail(m: seq<Entry>)
    requires Ascending(m) && m != []
    ensures forall e :: e in m[1..] ==> Less(m[0].key, e.key) && e.key != m[0].key
  {
    forall e | e in m[1..]
      ensures Less(m[0].key, e.key) && e.key != m[0].key
    {
      LessIrreflexive(e.key);
    }
  }

  /** A little-endian `u32` (the `<I` layout) at offset `o`. */
  function LE32(b: seq<byte>, o: nat): u32
    requires o + 4 <= |b|
  {
    b[o] as int + 0x100 * b[o + 1] as int + 0x1_0000 * b[o + 2] as int + 0x100_0000 * b[o + 3] as int
  }

  /** The four little-endian bytes of a `u32`. */
  function EncodeLE32(x: u32): (b: seq<byte>)
    ensures |b| == 4
  {
    [x % 0x100, (x / 0x100) % 0x100, (x / 0x1_0000) % 0x100, x / 0x100_0000]
  }

  /** Decoding the encoding of a `u32` gives it back. */
  lemma LE32OfEncode(x: u32)
    ensures LE32(EncodeLE32(x), 0) == x
  {
    var b := EncodeLE32(x);
    assert x == x % 0x100 + 0x100 * (x / 0x100);
    assert x / 0x100 == (x / 0x100) % 0x100 + 0x100 * (x / 0x1_0000);
    assert x / 0x1_0000 == (x / 0x1_0000) % 0x100 + 0x100 * (x / 0x100_0000);
  }

  /** Encoding the `u32` read at `o` reproduces the four bytes read. */
  lemma EncodeOfLE32(b: seq<byte>, o: nat)
    requires o + 4 <= |b|
    ensures EncodeLE32(LE32(b, o)) == b[o..o + 4]
  {
    var x := LE32(b, o);
    assert x % 0x100 == b[o];
    assert x / 0x100 == b[o + 1] as int + 0x100 * b[o + 2] as int + 0x1_0000 * b[o + 3] as int;
    assert x / 0x1_0000 == b[o + 2] as int + 0x100 * b[o + 3] as int;
    assert x / 0x100_0000 == b[o + 3];
  }

  /** The header is three `u32`s; the third is the number of entries. */
  function EntryCount(bytes: seq<byte>): u32
    requires |bytes| >= 12
  {
    LE32(bytes, 8)
  }

  /** Every entry the header announces is present: the source panics on a
      shorter input. */
  predicate HeaderFits(bytes: seq<byte>) {
    |bytes| >= 12 && |bytes| >= 12 + 8 * EntryCount(bytes)
  }

  /** Entry `i` occupies the 8 bytes at `12 + 8 * i`: a little-endian `u32`
      frequency (`<I`), then the symbol byte and three pad bytes (`<B3x`).
      The symbol byte becomes a one-character string. */
  function EntryAt(bytes: seq<byte>, i: nat): (e: Entry)
    requires 12 + 8 * (i + 1) <= |bytes|
    ensures |e.key| == 1 && e.freq < 0x1_0000_0000
  {
    Entry([bytes[12 + 8 * i + 4] as char], LE32(bytes, 12 + 8 * i))
  }

  /** The map after inserting the first `n` entries in order. */
  function Table(bytes: seq<byte>, n: nat): seq<Entry>
    requires 12 + 8 * n <= |bytes|
  {
    if n == 0 then []
    else
      var e := EntryAt(bytes, n - 1);
      Insert(Table(bytes, n - 1), e.key, e.freq)
  }

  /** The table is an ordered map whatever the input (`BTreeMap` order). */
  lemma {:induction false} TableAscending(bytes: seq<byte>, n: nat)
    requires 12 + 8 * n <= |bytes|
    ensures Ascending(Table(bytes, n))
  {
    if n > 0 {
      TableAscending(bytes, n - 1);
      var e := EntryAt(bytes, n - 1);
      InsertSpec(Table(bytes, n - 1), e.key, e.freq);
    }
  }

  /** Inserting entry `n - 1` into the table of the first `n - 1`. */
  lemma TableStep(bytes: seq<byte>, n: nat)
    requires 0 < n && 12 + 8 * n <= |bytes|
    ensures forall e :: e in Table(bytes, n) <==>
              e == EntryAt(bytes, n - 1) || (e in Table(bytes, n - 1) && e.key != EntryAt(bytes, n - 1).key)
  {
    TableAscending(bytes, n - 1);
    var e := EntryAt(bytes, n - 1);
    InsertSpec(Table(bytes, n - 1), e.key, e.freq);
  }

  /** Entry `i` is the last of the first `n` entries with its key. */
  ghost predicate Latest(bytes: seq<byte>, n: nat, i: nat)
    requires 12 + 8 * n <= |bytes|
  {
    i < n && forall j :: i < j < n ==> EntryAt(bytes, j).key != EntryAt(bytes, i).key
  }

  /** An entry that no later entry overwrites is in the table. */
  lemma {:induction false} LatestInTable(bytes: seq<byte>, n: nat, i: nat)
    requires 12 + 8 * n <= |bytes| && Latest(bytes, n, i)
    ensures EntryAt(bytes, i) in Table(bytes, n)
  {
    if i < n - 1 {
      LatestShrinks(bytes, n, i);
      LatestInTable(bytes, n - 1, i);
      TableKeeps(bytes, n, EntryAt(bytes, i));
    } else {
      TableGains(bytes, n);
    }
  }

  /** An entry latest among the first `n`, other than the last, is latest
      among the first `n - 1`, and the last entry has another key. */
  lemma LatestShrinks(bytes: seq<byte>, n: nat, i: nat)
    requires 12 + 8 * n <= |bytes| && Latest(bytes, n, i) && i < n - 1
    ensures Latest(bytes, n - 1, i)
    ensures EntryAt(bytes, n - 1).key != EntryAt(bytes, i).key
  {
  }

  /** The entry inserted last is in the table. */
  lemma TableGains(bytes: seq<byte>, n: nat)
    requires 0 < n && 12 + 8 * n <= |bytes|
    ensures EntryAt(bytes, n - 1) in Table(bytes, n)
  {
    TableStep(bytes, n);
  }

  /** An entry of the earlier table with another key than the entry
      inserted last is still there. */
  lemma TableKeeps(bytes: seq<byte>, n: nat, e: Entry)
    requires 0 < n && 12 + 8 * n <= |bytes|
    requires e in Table(bytes, n - 1) && e.key != EntryAt(bytes, n - 1).key
    ensures e in Table(bytes, n)
  {
    TableStep(bytes, n);
  }

  /** An entry of the table is the one inserted last or an earlier one it
      did not overwrite. */
  lemma TableSource(bytes: seq<byte>, n: nat, e: Entry)
    requires 12 + 8 * n <= |bytes| && e in Table(bytes, n)
    ensures 0 < n
    ensures e == EntryAt(bytes, n - 1) || (e in Table(bytes, n - 1) && e.key != EntryAt(bytes, n - 1).key)
  {
    TableStep(bytes, n);
  }

  /** Everything in the table is an entry that no later entry overwrites. */
  lemma {:induction false} TableHoldsLatest(bytes: seq<byte>, n: nat, e: Entry) returns (i: nat)
    requires 12 + 8 * n <= |bytes| && e in Table(bytes, n)
    ensures Latest(bytes, n, i) && EntryAt(bytes, i) == e
  {
    TableSource(bytes, n, e);
    if e == EntryAt(bytes, n - 1) {
      i := n - 1;
    } else {
      i := TableHoldsLatest(bytes, n - 1, e);
      LatestExtends(bytes, n, i);
    }
  }

  /** An entry still latest among the first `n - 1` stays latest among the
      first `n` when entry `n - 1` has another key. */
  lemma LatestExtends(bytes: seq<byte>, n: nat, i: nat)
    requires 0 < n && 12 + 8 * n <= |bytes| && Latest(bytes, n - 1, i)
    requires EntryAt(bytes, n - 1).key != EntryAt(bytes, i).key
    ensures Latest(bytes, n, i)
  {
  }

  /** `get_freqs`: reads the header and inserts each entry into the map,
      advancing through the input; returns the number of bytes consumed. */
  method GetFreqs(bytes: seq<byte>) returns (read: nat, freqs: seq<Entry>)
    requires HeaderFits(bytes)
    ensures read == 12 + 8 * EntryCount(bytes)
    ensures freqs == Table(bytes, EntryCount(bytes))
  {
    read := 0;
    freqs := [];
    var rest := bytes;
    var chars := LE32(rest, 8);
    rest := rest[12..];
    read := read + 12;
    for i := 0 to chars
      invariant read == 12 + 8 * i
      invariant rest == bytes[read..]
      invariant freqs == Table(bytes, i)
    {
      var f := LE32(rest, 0);
      rest := rest[4..];
      read := read + 4;
      var c := rest[0];
      rest := rest[4..];
      read := read + 4;
      freqs := Insert(freqs, [c as char], f);
    }
  }
}
