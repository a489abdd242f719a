/** Signalling fields: numbers written highest bit first, one after another. */
module BitFields {
  import opened Bits
  import Primes

  type Bit = b: nat | b < 2

  /** The number whose `width` bits, highest first, start at `pos`. */
  function Number(bits: seq<Bit>, pos: nat, width: nat): nat
    requires pos + width <= |bits|
  {
    if width == 0 then 0 else 2 * Number(bits, pos, width - 1) + bits[pos + width - 1] as nat
  }

  /** Bit `k` is the `k`th binary digit. */
  lemma {:induction false} BitAtIsDigit(x: nat, k: nat)
    ensures BitAt(x, k) == x / Pow2(k) % 2
  {
    if k > 0 {
      BitAtIsDigit(x / 2, k - 1);
      hide BitAt, Pow2;
      Doubles(k - 1);
      HalfThenQuotient(x, Pow2(k - 1));
    }
  }

  lemma HalfThenQuotient(x: nat, m: nat)
    requires m > 0
    ensures x / 2 / m == x / (2 * m)
  {
    var q, r := x / 2 / m, x / 2 % m;
    assert x / 2 == m * q + r;
    assert 2 * (m * q) == 2 * m * q;
    Primes.QuotientIsUnique(2 * m, q, 2 * r + x % 2);
  }

  /** Bit `k` of a number read is the `k`th bit before the end of its place. */
  lemma {:induction false} NumberBit(bits: seq<Bit>, pos: nat, width: nat, k: nat)
    requires pos + width <= |bits| && k < width
    ensures BitAt(Number(bits, pos, width), k) == bits[pos + width - 1 - k]
  {
    hide BitAt;
    var n := Number(bits, pos, width - 1);
    DoubledBit(n, bits[pos + width - 1], k);
    if k > 0 {
      NumberBit(bits, pos, width - 1, k - 1);
    }
  }

  lemma DoubledBit(n: nat, b: nat, k: nat)
    requires b < 2
    ensures BitAt(2 * n + b, k) == if k == 0 then b else BitAt(n, k - 1)
  {
  }

  /** The source's loop over a field, highest bit first. */
  method ReadNumber(bits: seq<Bit>, pos: nat, width: nat) returns (n: nat)
    requires pos + width <= |bits|
    ensures n == Number(bits, pos, width)
  {
    n := 0;
    var i: nat := width;
    while i > 0
      invariant i <= width && n == Number(bits, pos, width - i) * Pow2(i)
    {
      i := i - 1;
      var b: nat := bits[pos + width - 1 - i];
      ghost var h := Number(bits, pos, width - i - 1);
      assert Number(bits, pos, width - i) == 2 * h + b;
      OrBelowSet(h, b, i);
      Scaled(h, b, i);
      n := Or(n, b * Pow2(i));
    }
  }

  lemma Scaled(h: nat, b: nat, i: nat)
    ensures h * Pow2(i + 1) + b * Pow2(i) == (2 * h + b) * Pow2(i)
  {
    assert Pow2(i + 1) == 2 * Pow2(i);
    assert (2 * h + b) * Pow2(i) == 2 * h * Pow2(i) + b * Pow2(i);
  }

  lemma {:induction false} NumberBelow(bits: seq<Bit>, pos: nat, width: nat)
    requires pos + width <= |bits|
    ensures Number(bits, pos, width) < Pow2(width)
  {
    if width > 0 {
      NumberBelow(bits, pos, width - 1);
    }
  }

  lemma NumberLast(bits: seq<Bit>, pos: nat, width: nat)
    requires pos + width <= |bits|
    ensures Number(bits, pos, width)
            == if width == 0 then 0 else 2 * Number(bits, pos, width - 1) + bits[pos + width - 1] as nat
  {
  }

  /** A number is made of its highest `a` bits and the `b` bits after them. */
  lemma {:induction false} NumberSplit(bits: seq<Bit>, pos: nat, a: nat, b: nat)
    requires pos + a + b <= |bits|
    ensures Number(bits, pos, a + b) == Number(bits, pos, a) * Pow2(b) + Number(bits, pos + a, b)
  {
    hide Number;
    NumberLast(bits, pos, a + b);
    NumberLast(bits, pos + a, b);
    if b > 0 {
      NumberSplit(bits, pos, a, b - 1);
      Scaled(Number(bits, pos, a), 0, b - 1);
    }
  }

  lemma {:induction false} NumberElsewhere(s: seq<Bit>, i: nat, t: seq<Bit>, j: nat, width: nat)
    requires i + width <= |s| && j + width <= |t| && s[i..i + width] == t[j..j + width]
    ensures Number(s, i, width) == Number(t, j, width)
  {
    if width > 0 {
      SameParts(s, i, t, j, width - 1, 1);
      SameLast(s, i, t, j, width);
      NumberElsewhere(s, i, t, j, width - 1);
    }
  }

  lemma SameLast(s: seq<Bit>, i: nat, t: seq<Bit>, j: nat, width: nat)
    requires width > 0 && i + width <= |s| && j + width <= |t| && s[i..i + width] == t[j..j + width]
    ensures s[i + width - 1] == t[j + width - 1]
  {
    assert s[i..i + width][width - 1] == t[j..j + width][width - 1];
  }

  /** `v` in `width` bits. */
  function Write(v: nat, width: nat): (bits: seq<Bit>)
    ensures |bits| == width
  {
    if width == 0 then [] else Write(v / 2, width - 1) + [v % 2]
  }

  lemma {:induction false} NumberOfWrite(v: nat, width: nat)
    requires v < Pow2(width)
    ensures Number(Write(v, width), 0, width) == v
  {
    if width > 0 {
      NumberOfWrite(v / 2, width - 1);
      var s := Write(v / 2, width - 1);
      assert Write(v, width)[0..width - 1] == s[0..width - 1];
      NumberElsewhere(Write(v, width), 0, s, 0, width - 1);
    }
  }

  /** Fields of the widths given, read one after another. */
  function Fields(bits: seq<Bit>, pos: nat, widths: seq<nat>): (fields: seq<nat>)
    requires pos + Total(widths) <= |bits|
    ensures |fields| == |widths|
  {
    if widths == [] then []
    else
      var last := |widths| - 1;
      Fields(bits, pos, widths[..last]) + [Number(bits, pos + Total(widths[..last]), widths[last])]
  }

  function Total(widths: seq<nat>): nat
  {
    if widths == [] then 0 else Total(widths[..|widths| - 1]) + widths[|widths| - 1]
  }

  ghost predicate Fit(fields: seq<nat>, widths: seq<nat>)
  {
    |fields| == |widths| && forall i :: 0 <= i < |fields| ==> fields[i] < Pow2(widths[i])
  }

  function WriteAll(fields: seq<nat>, widths: seq<nat>): (bits: seq<Bit>)
    requires |fields| == |widths|
    ensures |bits| == Total(widths)
  {
    if fields == [] then []
    else
      var last := |fields| - 1;
      WriteAll(fields[..last], widths[..last]) + Write(fields[last], widths[last])
  }

  lemma {:induction false} FieldsElsewhere(s: seq<Bit>, i: nat, t: seq<Bit>, j: nat, widths: seq<nat>)
    requires i + Total(widths) <= |s| && j + Total(widths) <= |t| && s[i..i + Total(widths)] == t[j..j + Total(widths)]
    ensures Fields(s, i, widths) == Fields(t, j, widths)
    decreases |widths|
  {
    hide Fields, Total, Number;
    if widths == [] {
      NoFields(s, i);
      NoFields(t, j);
    } else {
      var last := |widths| - 1;
      var m, w := Total(widths[..last]), widths[last];
      LastField(s, i, widths);
      LastField(t, j, widths);
      SameParts(s, i, t, j, m, w);
      FieldsElsewhere(s, i, t, j, widths[..last]);
      NumberElsewhere(s, i + m, t, j + m, w);
    }
  }

  lemma NoFields(bits: seq<Bit>, pos: nat)
    requires pos + Total([]) <= |bits|
    ensures Fields(bits, pos, []) == []
  {
  }

  lemma LastField(bits: seq<Bit>, pos: nat, widths: seq<nat>)
    requires widths != [] && pos + Total(widths) <= |bits|
    ensures var last := |widths| - 1;
            && Total(widths) == Total(widths[..last]) + widths[last]
            && Fields(bits, pos, widths)
               == Fields(bits, pos, widths[..last]) + [Number(bits, pos + Total(widths[..last]), widths[last])]
  {
  }

  lemma SameParts(s: seq<Bit>, i: nat, t: seq<Bit>, j: nat, m: nat, w: nat)
    requires i + (m + w) <= |s| && j + (m + w) <= |t| && s[i..i + (m + w)] == t[j..j + (m + w)]
    ensures s[i..i + m] == t[j..j + m] && s[i + m..i + m + w] == t[j + m..j + m + w]
  {
    var a, b := s[i..i + (m + w)], t[j..j + (m + w)];
    var u, v := s[i..i + m], t[j..j + m];
    forall k | 0 <= k < m ensures u[k] == v[k] {
      assert a[k] == b[k];
    }
    var x, y := s[i + m..i + m + w], t[j + m..j + m + w];
    forall k | 0 <= k < w ensures x[k] == y[k] {
      assert a[m + k] == b[m + k];
    }
  }

  lemma {:induction false} FieldsOfWrite(fields: seq<nat>, widths: seq<nat>)
    requires Fit(fields, widths)
    ensures Fields(WriteAll(fields, widths), 0, widths) == fields
    decreases |fields|
  {
    hide Fields, Total, Number, Write, WriteAll;
    var bits := WriteAll(fields, widths);
    if fields == [] {
      NoFields(bits, 0);
    } else {
      var last := |fields| - 1;
      var s, t := WriteAll(fields[..last], widths[..last]), Write(fields[last], widths[last]);
      LastWritten(fields, widths);
      LastField(bits, 0, widths);
      FieldsOfWrite(fields[..last], widths[..last]);
      assert bits[0..0 + |s|] == s[0..0 + |s|] && bits[|s|..|s| + |t|] == t[0..0 + |t|];
      FieldsElsewhere(bits, 0, s, 0, widths[..last]);
      NumberOfWrite(fields[last], widths[last]);
      NumberElsewhere(bits, |s|, t, 0, widths[last]);
    }
  }

  lemma LastWritten(fields: seq<nat>, widths: seq<nat>)
    requires |fields| == |widths| > 0
    ensures var last := |fields| - 1;
            WriteAll(fields, widths) == WriteAll(fields[..last], widths[..last]) + Write(fields[last], widths[last])
  {
  }

  /** Fields written anywhere in a bit string are read back from there. */
  lemma FieldsReadBack(bits: seq<Bit>, pos: nat, fields: seq<nat>, widths: seq<nat>)
    requires Fit(fields, widths) && pos + Total(widths) <= |bits|
             && bits[pos..pos + Total(widths)] == WriteAll(fields, widths)
    ensures Fields(bits, pos, widths) == fields
  {
    FieldsOfWrite(fields, widths);
    var s := WriteAll(fields, widths);
    assert s[0..0 + Total(widths)] == s;
    FieldsElsewhere(bits, pos, s, 0, widths);
  }

  /** Reads fields one after another. */
  method ReadFields(bits: seq<Bit>, pos: nat, widths: seq<nat>) returns (fields: seq<nat>, idx: nat)
    requires pos + Total(widths) <= |bits|
    ensures fields == Fields(bits, pos, widths) && idx == pos + Total(widths)
  {
    fields, idx := [], pos;
    for i := 0 to |widths|
      invariant pos + Total(widths[..i]) <= |bits| && idx == pos + Total(widths[..i])
      invariant fields == Fields(bits, pos, widths[..i])
    {
      TotalPrefix(widths, i);
      var n := ReadNumber(bits, idx, widths[i]);
      fields := fields + [n];
      idx := idx + widths[i];
      assert widths[..i + 1][..i] == widths[..i];
    }
    assert widths[..|widths|] == widths;
  }

  lemma {:induction false} TotalPrefix(widths: seq<nat>, i: nat)
    requires i < |widths|
    ensures Total(widths[..i + 1]) == Total(widths[..i]) + widths[i] <= Total(widths)
    decreases |widths| - i
  {
    assert widths[..i + 1][..i] == widths[..i];
    if i + 1 == |widths| {
      assert widths[..i + 1] == widths;
    } else {
      TotalPrefix(widths, i + 1);
    }
  }

  /** Where fields of these widths start, one after another. */
  ghost predicate StartAt(widths: seq<nat>, starts: seq<nat>)
  {
    && |starts| == |widths| && (starts != [] ==> starts[0] == 0)
    && forall k :: 0 < k < |starts| ==> starts[k] == starts[k - 1] + widths[k - 1]
  }

  lemma {:induction false} StartIsTotal(widths: seq<nat>, starts: seq<nat>, k: nat)
    requires StartAt(widths, starts) && k < |widths|
    ensures Total(widths[..k]) == starts[k]
  {
    if k == 0 {
      assert widths[..0] == [];
    } else {
      StartIsTotal(widths, starts, k - 1);
      TotalPrefix(widths, k - 1);
      assert starts[k] == starts[k - 1] + widths[k - 1];
    }
  }

  /** Each field is the number at its own place. */
  lemma {:induction false} FieldsAreAt(bits: seq<Bit>, pos: nat, widths: seq<nat>, starts: seq<nat>)
    requires StartAt(widths, starts) && pos + Total(widths) <= |bits|
    ensures forall k :: 0 <= k < |widths| ==>
              pos + starts[k] + widths[k] <= |bits| && Fields(bits, pos, widths)[k] == Number(bits, pos + starts[k], widths[k])
    decreases |widths|
  {
    hide Number;
    if widths != [] {
      var last := |widths| - 1;
      LastField(bits, pos, widths);
      StartIsTotal(widths, starts, last);
      assert StartAt(widths[..last], starts[..last]);
      FieldsAreAt(bits, pos, widths[..last], starts[..last]);
    }
  }

  // ---- Lists of records ----

  ghost predicate AllFit(records: seq<seq<nat>>, widths: seq<nat>)
  {
    forall i :: 0 <= i < |records| ==> |records[i]| == |widths| && Fit(records[i], widths)
  }

  function WriteRecords(records: seq<seq<nat>>, widths: seq<nat>): (bits: seq<Bit>)
    requires forall i :: 0 <= i < |records| ==> |records[i]| == |widths|
    ensures |bits| == |records| * Total(widths)
  {
    if records == [] then []
    else
      var last := |records| - 1;
      OneMore(last, Total(widths));
      WriteRecords(records[..last], widths) + WriteAll(records[last], widths)
  }

  lemma OneMore(n: nat, m: nat)
    ensures (n + 1) * m == n * m + m
  {
  }

  lemma RecordInside(i: nat, n: nat, size: nat)
    requires i < n
    ensures i * size + size <= n * size
  {
    Primes.RoomFor(i, n, size);
  }

  /** `n` records of one layout, read one after another. */
  function Records(bits: seq<Bit>, pos: nat, widths: seq<nat>, n: nat): (r: seq<seq<nat>>)
    requires pos + n * Total(widths) <= |bits|
    ensures |r| == n
  {
    seq(n, i requires 0 <= i < n => RecordInside(i, n, Total(widths)); Fields(bits, pos + i * Total(widths), widths))
  }

  method ReadRecords(bits: seq<Bit>, pos: nat, widths: seq<nat>, n: nat) returns (r: seq<seq<nat>>)
    requires pos + n * Total(widths) <= |bits|
    ensures r == Records(bits, pos, widths, n)
  {
    r := [];
    var idx := pos;
    for i := 0 to n
      invariant |r| == i && idx == pos + i * Total(widths)
      invariant forall k :: 0 <= k < i ==> r[k] == Records(bits, pos, widths, n)[k]
    {
      RecordInside(i, n, Total(widths));
      OneMore(i, Total(widths));
      var fields;
      fields, idx := ReadFields(bits, idx, widths);
      r := r + [fields];
    }
  }

  /** Records written anywhere in a bit string are read back from there. */
  lemma RecordsReadBack(bits: seq<Bit>, pos: nat, records: seq<seq<nat>>, widths: seq<nat>)
    requires AllFit(records, widths) && pos + |records| * Total(widths) <= |bits|
    requires bits[pos..pos + |records| * Total(widths)] == WriteRecords(records, widths)
    ensures Records(bits, pos, widths, |records|) == records
  {
    hide Fields, WriteRecords, Total, Fit;
    var r := Records(bits, pos, widths, |records|);
    forall i | 0 <= i < |records| ensures r[i] == records[i] {
      RecordAt(bits, pos, widths, records, i);
    }
  }

  lemma {:induction false} RecordAt(bits: seq<Bit>, pos: nat, widths: seq<nat>, records: seq<seq<nat>>, i: nat)
    requires i < |records| && AllFit(records, widths)
    requires pos + |records| * Total(widths) <= |bits|
    requires bits[pos..pos + |records| * Total(widths)] == WriteRecords(records, widths)
    ensures pos + i * Total(widths) + Total(widths) <= |bits|
    ensures Fields(bits, pos + i * Total(widths), widths) == records[i]
    decreases |records|
  {
    hide WriteRecords, WriteAll, Fields, Total, Fit;
    var last, t := |records| - 1, Total(widths);
    OneMore(last, t);
    LastRecord(records, widths);
    var s := bits[pos..pos + |records| * t];
    assert s[..last * t] == bits[pos..pos + last * t] && s[last * t..] == bits[pos + last * t..pos + last * t + t];
    if i < last {
      RecordAt(bits, pos, widths, records[..last], i);
    } else {
      FieldsReadBack(bits, pos + last * t, records[last], widths);
    }
  }

  lemma LastRecord(records: seq<seq<nat>>, widths: seq<nat>)
    requires |records| > 0 && AllFit(records, widths)
    ensures var last, s := |records| - 1, WriteRecords(records, widths);
            && |s| == last * Total(widths) + Total(widths)
            && s[..last * Total(widths)] == WriteRecords(records[..last], widths)
            && s[last * Total(widths)..] == WriteAll(records[last], widths)
  {
    OneMore(|records| - 1, Total(widths));
  }
}
