/** Fixed-width tables inside an image: rows stored one after another. */
module Tables {
  import opened Bytes

  /** A row format: how a row is stored, in how many bytes, and how it is read back. */
  datatype Format<!T(!new)> = Format(width: nat, enc: T -> seq<Byte>, dec: seq<Byte> -> T) {
    /** Reading back a stored row gives the row. */
    ghost predicate Sound() {
      width > 0 && forall x: T {:trigger enc(x)} :: |enc(x)| == width && dec(enc(x)) == x
    }
  }

  function Encode<T(!new)>(f: Format<T>, rows: seq<T>): seq<Byte> {
    if rows == [] then [] else Encode(f, rows[..|rows| - 1]) + f.enc(rows[|rows| - 1])
  }

  /** The `n` rows stored at `at`. */
  function Decode<T(!new)>(f: Format<T>, s: seq<Byte>, at: nat, n: nat): (rows: seq<T>)
    requires at + n * f.width <= |s|
    ensures |rows| == n
  {
    if n == 0 then []
    else
      RowFits(n, f.width);
      Decode(f, s, at, n - 1) + [f.dec(s[at + (n - 1) * f.width..at + n * f.width])]
  }

  lemma RowFits(n: nat, w: nat)
    requires n > 0
    ensures n * w == (n - 1) * w + w
  {}

  lemma {:induction false} EncodeSize<T(!new)>(f: Format<T>, rows: seq<T>)
    requires f.Sound()
    ensures |Encode(f, rows)| == |rows| * f.width
    decreases |rows|
  {
    if rows != [] {
      EncodeSize(f, rows[..|rows| - 1]);
      RowFits(|rows|, f.width);
    }
  }

  /** Row `k` is read from its own bytes. */
  lemma {:induction false} DecodeAt<T(!new)>(f: Format<T>, s: seq<Byte>, at: nat, n: nat, k: nat)
    requires at + n * f.width <= |s| && k < n
    ensures at + k * f.width + f.width <= |s| && Decode(f, s, at, n)[k] == f.dec(s[at + k * f.width..at + k * f.width + f.width])
    decreases n
  {
    RowFits(n, f.width);
    if k < n - 1 { DecodeAt(f, s, at, n - 1, k); }
  }

  /** A table in place decodes to its rows. */
  lemma {:induction false} TableRoundTrip<T(!new)>(f: Format<T>, rows: seq<T>, s: seq<Byte>, at: nat)
    requires f.Sound() && Has(s, at, Encode(f, rows))
    ensures at + |rows| * f.width <= |s| && Decode(f, s, at, |rows|) == rows
    decreases |rows|
  {
    EncodeSize(f, rows);
    if rows != [] {
      var front, last := rows[..|rows| - 1], rows[|rows| - 1];
      EncodeSize(f, front);
      RowFits(|rows|, f.width);
      HasParts(s, at, Encode(f, front), f.enc(last));
      TableRoundTrip(f, front, s, at);
    }
  }

  /** Store a table row by row. */
  method PutTable<T(!new)>(f: Format<T>, buf: seq<Byte>, at: nat, rows: seq<T>) returns (r: seq<Byte>)
    requires f.Sound() && at + |rows| * f.width <= |buf|
    ensures |Encode(f, rows)| == |rows| * f.width && r == Put(buf, at, Encode(f, rows))
  {
    hide Put, Has;
    EncodeSize(f, rows);
    r := buf;
    PutNothing(buf, at);
    for k := 0 to |rows|
      invariant |r| == |buf| && at + |Encode(f, rows[..k])| <= |buf| && r == Put(buf, at, Encode(f, rows[..k]))
    {
      var front := rows[..k];
      EncodeSize(f, front);
      EncodeSize(f, rows[..k + 1]);
      assert rows[..k + 1][..k] == front;
      RowFits(k + 1, f.width);
      Rows(k + 1, |rows|, f.width);
      PutTwice(buf, at, Encode(f, front), f.enc(rows[k]));
      r := Put(r, at + k * f.width, f.enc(rows[k]));
    }
    assert rows[..|rows|] == rows;
  }

  lemma Rows(a: nat, b: nat, w: nat)
    requires a <= b
    ensures a * w <= b * w
  {}

  lemma PutNothing(buf: seq<Byte>, at: nat)
    requires at <= |buf|
    ensures Put(buf, at, []) == buf
  {}

  lemma PutTwice(buf: seq<Byte>, at: nat, x: seq<Byte>, y: seq<Byte>)
    requires at + |x| + |y| <= |buf|
    ensures Put(Put(buf, at, x), at + |x|, y) == Put(buf, at, x + y)
  {}

  /** Read a table row by row. */
  method GetTable<T(!new)>(f: Format<T>, s: seq<Byte>, at: nat, n: nat) returns (rows: seq<T>)
    requires at + n * f.width <= |s|
    ensures rows == Decode(f, s, at, n)
  {
    rows := [];
    var q := at;
    for k := 0 to n
      invariant q == at + k * f.width <= |s| && rows == Decode(f, s, at, k)
    {
      RowFits(k + 1, f.width);
      Rows(k + 1, n, f.width);
      rows := rows + [f.dec(s[q..q + f.width])];
      q := q + f.width;
    }
  }

  // ---- rows of fixed-width integers ---------------------------------------------------------

  function EncodeU32(v: U32): seq<Byte> { Le(v, 4) }
  function DecodeU32(s: seq<Byte>): U32 { if |s| == 4 then Get32(s, 0) else 0 }
  function U32s(): Format<U32> { Format(4, EncodeU32, DecodeU32) }

  lemma U32sSound()
    ensures U32s().Sound() && U32s().width == 4
  {
    forall v: U32 ensures |EncodeU32(v)| == 4 && DecodeU32(EncodeU32(v)) == v {
      assert Has(Le(v, 4), 0, Le(v, 4));
      Get32Of(Le(v, 4), 0, v);
    }
    assert forall v: U32 {:trigger U32s().enc(v)} :: U32s().enc(v) == EncodeU32(v) && U32s().dec(EncodeU32(v)) == DecodeU32(EncodeU32(v));
  }
}
