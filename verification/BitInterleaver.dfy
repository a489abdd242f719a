/**
 The bit path's addresses: column twist and demultiplexing (sections 6.1.3 and 6.2.1 of
 EN 302 755) undone by scattering each received value to its place, then parity interleaving
 undone by the decoder's own layout.
 */
module BitInterleaver {
  import opened Primes
  import opened Permutations

  /** Twist and demultiplexer of one constellation and FEC size: `column` bits in each of `row` columns. */
  datatype Tables = Tables(column: nat, row: nat, tc: seq<nat>, demux: seq<nat>) {
    ghost predicate Ok() {
      && column > 0 && row > 0
      && |tc| == row && IsPermutation(demux, row)
      && forall r :: 0 <= r < row ==> tc[r] <= column
    }

    function Size(): nat { column * row }
  }

  /** The bit index for column `c` of the matrix and tributary `r`: the source's intermediate table. */
  function Twist(t: Tables, c: nat, r: nat): nat
    requires t.column > 0 && r < |t.tc| && t.tc[r] <= t.column
  {
    t.column * r + (c + t.column - t.tc[r]) % t.column
  }

  /** Where value `n` of word `k` belongs in the codeword. */
  function Address(t: Tables, k: nat, n: nat): nat
    requires t.Ok() && n < t.row
  {
    Twist(t, k, t.demux[n])
  }

  lemma TwistInside(t: Tables, c: nat, r: nat)
    requires t.Ok() && r < t.row
    ensures Twist(t, c, r) < t.Size() && Twist(t, c, r) / t.column == r
  {
    var x := (c + t.column - t.tc[r]) % t.column;
    QuotientIsUnique(t.column, r, x);
    RoomFor(r, t.row, t.column);
  }

  lemma ModShift(a: nat, b: nat, s: nat, m: nat)
    requires a < m && b < m && s <= m && (a + m - s) % m == (b + m - s) % m
    ensures a == b
  {
    ModOnce(a + m - s, m);
    ModOnce(b + m - s, m);
  }

  lemma ModOnce(x: nat, m: nat)
    requires x < 2 * m
    ensures x % m == if x < m then x else x - m
  {
    if x < m {
      QuotientIsUnique(m, 0, x);
    } else {
      QuotientIsUnique(m, 1, x - m);
    }
  }

  /** Different values belong in different places. */
  lemma AddressesDiffer(t: Tables, k: nat, n: nat, k': nat, n': nat)
    requires t.Ok() && k < t.column && k' < t.column && n < t.row && n' < t.row
    requires Address(t, k, n) == Address(t, k', n')
    ensures k == k' && n == n'
  {
    TwistInside(t, k, t.demux[n]);
    TwistInside(t, k', t.demux[n']);
    assert t.demux[n] == t.demux[n'];
    ModShift(k, k', t.tc[t.demux[n]], t.column);
  }

  /** The place of the `i`-th received value. */
  function AddressAt(t: Tables, i: nat): nat
    requires t.Ok() && i < t.Size()
  {
    Address(t, i / t.row, i % t.row)
  }

  lemma WordAndValue(t: Tables, i: nat)
    requires t.row > 0 && i < t.Size()
    ensures i / t.row < t.column && i == (i / t.row) * t.row + i % t.row
  {
    var k := i / t.row;
    assert i == t.row * k + i % t.row == k * t.row + i % t.row;
    if k >= t.column {
      MulMonotone(t.column, k, t.row);
    }
  }

  lemma AddressAtIs(t: Tables, i: nat)
    requires t.Ok() && i < t.Size()
    ensures t.row > 0 && i / t.row < t.column && i % t.row < t.row
    ensures AddressAt(t, i) == Address(t, i / t.row, i % t.row)
  {
    hide Address;
    WordAndValue(t, i);
  }

  /** Every address is a place of the codeword, and no two received values share one. */
  lemma AddressInside(t: Tables, i: nat)
    requires t.Ok() && i < t.Size()
    ensures AddressAt(t, i) < t.Size()
  {
    WordAndValue(t, i);
    TwistInside(t, i / t.row, t.demux[i % t.row]);
  }

  lemma AddressAtDiffers(t: Tables, i: nat, j: nat)
    requires t.Ok() && i < t.Size() && j < t.Size() && AddressAt(t, i) == AddressAt(t, j)
    ensures i == j
  {
    hide *;
    AddressAtIs(t, i);
    AddressAtIs(t, j);
    AddressesDiffer(t, i / t.row, i % t.row, j / t.row, j % t.row);
    SameParts(i, j, t.row);
  }

  lemma SameParts(i: nat, j: nat, m: nat)
    requires m > 0 && i / m == j / m && i % m == j % m
    ensures i == j
  {
    assert i == m * (i / m) + i % m && j == m * (j / m) + j % m;
  }

  /** The address table is a permutation of the codeword's places, for any twist and any demultiplexer. */
  lemma AddressesPermute(t: Tables, address: seq<nat>)
    requires t.Ok() && |address| == t.Size() && forall i :: 0 <= i < |address| ==> address[i] == AddressAt(t, i)
    ensures IsPermutation(address, t.Size())
  {
    hide AddressAt, Tables.Ok, Tables.Size;
    forall i | 0 <= i < |address| ensures address[i] < t.Size() {
      AddressInside(t, i);
    }
    forall i, j | 0 <= i < j < |address| ensures address[i] != address[j] {
      if address[i] == address[j] {
        AddressAtDiffers(t, i, j);
      }
    }
  }

  // ---- The transmitter ----

  /** `v` is the codeword `u` written column by column with twisted starts and read by rows. */
  ghost predicate ColumnTwisted<T(!new)>(t: Tables, u: seq<T>, v: seq<T>)
    requires t.Ok()
  {
    |u| == |v| == t.Size() && forall i: nat :: i < t.Size() ==> Twisted(t, u, v, i)
  }

  ghost predicate Twisted<T>(t: Tables, u: seq<T>, v: seq<T>, i: nat)
    requires t.column > 0 && i < |u|
  {
    var c := i / t.column;
    c < |t.tc| && var j := (i + t.tc[c]) % t.column * t.row + c; j < |v| && v[j] == u[i]
  }

  /** `w` is `v` with input bit `x` of each word sent to output bit `to[x]`. */
  ghost predicate Demultiplexed<T(!new)>(row: nat, to: seq<nat>, v: seq<T>, w: seq<T>)
    requires row > 0 && |to| == row
  {
    |v| == |w| && forall k: nat, x: nat :: x < row && k * row + row <= |v| ==> MovedBit(row, to, v, w, k, x)
  }

  ghost predicate MovedBit<T>(row: nat, to: seq<nat>, v: seq<T>, w: seq<T>, k: nat, x: nat)
    requires x < |to| && x < row && k * row + row <= |v| == |w|
  {
    to[x] < row && w[k * row + to[x]] == v[k * row + x]
  }

  /** The received value at any position is the codeword's value at its address. */
  lemma ValueFromCodeword<T(!new)>(t: Tables, to: seq<nat>, u: seq<T>, v: seq<T>, w: seq<T>, i: nat)
    requires t.Ok() && |to| == t.row && i < t.Size()
    requires forall n :: 0 <= n < t.row ==> to[t.demux[n]] == n
    requires ColumnTwisted(t, u, v) && Demultiplexed(t.row, to, v, w)
    ensures AddressAt(t, i) < |u| && w[i] == u[AddressAt(t, i)]
  {
    AddressIsTwist(t, i);
    hide *;
    var k, n := i / t.row, i % t.row;
    var r := t.demux[n];
    BackToWord(t, k, r);
    TwistedAt(t, u, v, Twist(t, k, r), k, r);
    DemuxedAt(t.row, to, v, w, k, r, t.Size());
  }

  lemma AddressIsTwist(t: Tables, i: nat)
    requires t.Ok() && i < t.Size()
    ensures t.row > 0 && i == (i / t.row) * t.row + i % t.row && i / t.row < t.column
    ensures i % t.row < t.row == |t.demux| == |t.tc| && t.demux[i % t.row] < t.row && t.tc[t.demux[i % t.row]] <= t.column
    ensures AddressAt(t, i) == Twist(t, i / t.row, t.demux[i % t.row])
  {
    hide Twist;
    WordAndValue(t, i);
  }

  lemma TwistedAt<T(!new)>(t: Tables, u: seq<T>, v: seq<T>, i: nat, k: nat, r: nat)
    requires t.Ok() && ColumnTwisted(t, u, v) && i < t.Size() && r < t.row
    requires i / t.column == r && (i + t.tc[r]) % t.column == k
    ensures |u| == |v| == t.Size() && k * t.row + r < |v| && v[k * t.row + r] == u[i]
  {
    assert Twisted(t, u, v, i);
  }

  lemma DemuxedAt<T(!new)>(row: nat, to: seq<nat>, v: seq<T>, w: seq<T>, k: nat, x: nat, size: nat)
    requires row > 0 && |to| == row && Demultiplexed(row, to, v, w) && x < row && k * row + row <= size == |v|
    ensures |w| == |v| && to[x] < row && w[k * row + to[x]] == v[k * row + x]
  {
    assert MovedBit(row, to, v, w, k, x);
  }

  /** The place of tributary `r` of word `k` is read out of column `r` at row `k`. */
  lemma BackToWord(t: Tables, k: nat, r: nat)
    requires t.Ok() && k < t.column && r < t.row
    ensures Twist(t, k, r) < t.Size() && Twist(t, k, r) / t.column == r
    ensures (Twist(t, k, r) + t.tc[r]) % t.column == k
    ensures k * t.row + t.row <= t.Size()
  {
    TwistInside(t, k, r);
    RoomFor(k, t.column, t.row);
    ModOnce(k + t.column - t.tc[r], t.column);
    BackToColumn(t.column, r, (k + t.column - t.tc[r]) % t.column, k, t.tc[r]);
  }

  lemma BackToColumn(m: nat, r: nat, x: nat, k: nat, s: nat)
    requires k < m && s <= m && x < m && x == (if k + m - s < m then k + m - s else k - s)
    ensures (m * r + x + s) % m == k
  {
    if k + m - s < m {
      QuotientIsUnique(m, r + 1, k);
      assert m * (r + 1) + k == m * r + x + s;
    } else {
      QuotientIsUnique(m, r, k);
    }
  }

  /** Scattering the received values through the address table gives back the codeword. */
  lemma ScatterRestores<T(!new)>(t: Tables, to: seq<nat>, u: seq<T>, v: seq<T>, w: seq<T>, address: seq<nat>, s: seq<T>)
    requires t.Ok() && |to| == t.row && forall n :: 0 <= n < t.row ==> to[t.demux[n]] == n
    requires ColumnTwisted(t, u, v) && Demultiplexed(t.row, to, v, w)
    requires |address| == t.Size() == |s| && forall i :: 0 <= i < |address| ==> address[i] == AddressAt(t, i)
    requires IsPermutation(address, t.Size()) && forall i :: 0 <= i < |address| ==> s[address[i]] == w[i]
    ensures s == u
  {
    forall a | 0 <= a < |s| ensures s[a] == u[a] {
      var i := Reaches(address, t.Size(), a);
      ValueFromCodeword(t, to, u, v, w, i);
    }
  }

  /** The transmitter is defined for every codeword. */
  lemma EveryCodewordCanBeSent<T(!new)>(t: Tables, to: seq<nat>, u: seq<T>) returns (v: seq<T>, w: seq<T>)
    requires t.Ok() && |u| == t.Size() && |to| == t.row && forall n :: 0 <= n < t.row ==> to[t.demux[n]] == n
    ensures ColumnTwisted(t, u, v) && Demultiplexed(t.row, to, v, w)
  {
    hide *;
    v := WriteColumns(t, u);
    w := SendWords(t, to, v);
  }

  lemma WriteColumns<T(!new)>(t: Tables, u: seq<T>) returns (v: seq<T>)
    requires t.Ok() && |u| == t.Size()
    ensures |v| == t.Size() && ColumnTwisted(t, u, v)
  {
    hide Tables.Ok, Tables.Size, Twist, Twisted, ReadFrom;
    SizeOk(t);
    v := seq(|u|, j requires 0 <= j < |u| => RowInside(t, j); u[Twist(t, j / t.row, j % t.row)]);
    forall j: nat | j < t.Size() ensures ReadFrom(t, u, v, j) {
      ReadFromIs(t, u, v, j);
    }
    forall i: nat | i < t.Size() ensures Twisted(t, u, v, i) {
      TwistedBy(t, u, v, i);
    }
  }

  lemma SendWords<T(!new)>(t: Tables, to: seq<nat>, v: seq<T>) returns (w: seq<T>)
    requires t.Ok() && |v| == t.Size() && |to| == t.row && forall n :: 0 <= n < t.row ==> to[t.demux[n]] == n
    ensures t.row > 0 && Demultiplexed(t.row, to, v, w)
  {
    hide Tables.Ok, Tables.Size, Twist, MovedBit, MuxAt;
    SizeOk(t);
    w := seq(|v|, i requires 0 <= i < |v| => v[MuxAt(t, i)]);
    forall i: nat | i < t.Size() ensures SentFrom(t, v, w, i) {
    }
    forall k: nat, x: nat | x < t.row && k * t.row + t.row <= |v| ensures MovedBit(t.row, to, v, w, k, x) {
      MovedBy(t, to, v, w, k, x);
    }
  }

  lemma SizeOk(t: Tables)
    requires t.Ok()
    ensures t.column > 0 && t.row > 0 && |t.demux| == |t.tc| == t.row
    ensures forall r :: 0 <= r < t.row ==> t.tc[r] <= t.column
  {
  }

  /** Value `j` of the matrix read by rows comes from its place in the codeword. */
  ghost predicate ReadFrom<T>(t: Tables, u: seq<T>, v: seq<T>, j: nat)
    requires t.Ok() && j < t.Size()
  {
    RowInside(t, j);
    j < |v| && |u| == t.Size() && v[j] == u[Twist(t, j / t.row, j % t.row)]
  }

  lemma ReadFromIs<T>(t: Tables, u: seq<T>, v: seq<T>, j: nat)
    requires t.Ok() && j < t.Size() == |u| == |v|
    requires j / t.row < t.column && j % t.row < t.row && Twist(t, j / t.row, j % t.row) < |u| ==> v[j] == u[Twist(t, j / t.row, j % t.row)]
    ensures ReadFrom(t, u, v, j)
  {
    hide Twist;
    RowInside(t, j);
  }

  /** The place in the demultiplexed word that bit `i` of a word belongs to, words counted through. */
  function MuxAt(t: Tables, i: nat): (n: nat)
    requires t.Ok() && i < t.Size()
    ensures n < t.Size()
  {
    RowInside(t, i);
    InWord(t, i / t.row, i % t.row)
  }

  /** The place in word `k` for its bit `n`. */
  function InWord(t: Tables, k: nat, n: nat): (i: nat)
    requires t.Ok() && k < t.column && n < t.row
    ensures i < t.Size()
  {
    RoomFor(k, t.column, t.row);
    k * t.row + t.demux[n]
  }

  ghost predicate SentFrom<T>(t: Tables, v: seq<T>, w: seq<T>, i: nat)
    requires t.Ok() && i < t.Size()
  {
    |v| == |w| == t.Size() && w[i] == v[MuxAt(t, i)]
  }

  lemma RowInside(t: Tables, j: nat)
    requires t.Ok() && j < t.Size()
    ensures t.row > 0 && j / t.row < t.column && j % t.row < t.row
    ensures Twist(t, j / t.row, j % t.row) < t.Size()
    ensures t.demux[j % t.row] < t.row && j / t.row * t.row + t.demux[j % t.row] < t.Size()
  {
    hide Twist;
    WordAndValue(t, j);
    TwistInside(t, j / t.row, j % t.row);
    RoomFor(j / t.row, t.column, t.row);
  }

  lemma TwistedBy<T(!new)>(t: Tables, u: seq<T>, v: seq<T>, i: nat)
    requires t.Ok() && |u| == |v| == t.Size() && i < t.Size()
    requires forall j: nat :: j < t.Size() ==> ReadFrom(t, u, v, j)
    ensures Twisted(t, u, v, i)
  {
    hide Twist, ReadFrom, Tables.Ok;
    SizeOk(t);
    var c := ColumnOf(t, i);
    var k := (i + t.tc[c]) % t.column;
    UntwistTwist(t, i, c);
    PlaceInRow(t, k, c);
    ReadAt(t, u, v, k, c);
  }

  lemma ReadAt<T>(t: Tables, u: seq<T>, v: seq<T>, k: nat, c: nat)
    requires t.Ok() && k < t.column && c < t.row && k * t.row + c < t.Size() && ReadFrom(t, u, v, k * t.row + c)
    ensures k * t.row + c < |v| && Twist(t, k, c) < |u| && v[k * t.row + c] == u[Twist(t, k, c)]
  {
    hide Twist;
    PlaceInRow(t, k, c);
    RowInside(t, k * t.row + c);
  }

  lemma PlaceInRow(t: Tables, k: nat, c: nat)
    requires t.Ok() && k < t.column && c < t.row
    ensures k * t.row + c < t.Size() && (k * t.row + c) / t.row == k && (k * t.row + c) % t.row == c
  {
    RoomFor(k, t.column, t.row);
    QuotientIsUnique(t.row, k, c);
  }

  /** The multiplexed place of bit `n` of word `k`. */
  lemma MuxOf(t: Tables, k: nat, n: nat, i: nat)
    requires t.Ok() && i < t.Size() && n < t.row && i == k * t.row + n
    ensures n < |t.demux| && MuxAt(t, i) == t.demux[n] + k * t.row
  {
    WordAndValue(t, i);
    QuotientIsUnique(t.row, k, n);
    assert k * t.row == t.row * k;
  }

  lemma ColumnOf(t: Tables, i: nat) returns (c: nat)
    requires t.Ok() && i < t.Size()
    ensures c == i / t.column && c < t.row && i == t.column * c + i % t.column
  {
    c := i / t.column;
    MulMonotone(t.row, if c < t.row then t.row else c, t.column);
  }

  lemma UntwistTwist(t: Tables, i: nat, c: nat)
    requires t.Ok() && i < t.Size() && c == i / t.column && c < t.row && i == t.column * c + i % t.column
    ensures var k := (i + t.tc[c]) % t.column; k < t.column && Twist(t, k, c) == i
  {
    var m, x, s := t.column, i % t.column, t.tc[c];
    ModAdd(m, c, x, s);
    ModOnce(x + s, m);
    UntwistMod(x, s, m);
  }

  lemma ModAdd(m: nat, c: nat, x: nat, s: nat)
    requires m > 0 && x < m && s <= m
    ensures (m * c + x + s) % m == (x + s) % m
  {
    if x + s < m {
      QuotientIsUnique(m, c, x + s);
    } else {
      QuotientIsUnique(m, c + 1, x + s - m);
      assert m * (c + 1) == m * c + m;
    }
    ModOnce(x + s, m);
  }

  lemma UntwistMod(x: nat, s: nat, m: nat)
    requires x < m && s <= m
    ensures ((x + s) % m + m - s) % m == x
  {
    ModOnce(x + s, m);
    ModOnce((x + s) % m + m - s, m);
  }

  lemma MovedBy<T(!new)>(t: Tables, to: seq<nat>, v: seq<T>, w: seq<T>, k: nat, x: nat)
    requires t.Ok() && |v| == |w| == t.Size() && |to| == t.row && forall n :: 0 <= n < t.row ==> to[t.demux[n]] == n
    requires x < t.row && k * t.row + t.row <= |v|
    requires forall i: nat :: i < t.Size() ==> SentFrom(t, v, w, i)
    ensures MovedBit(t.row, to, v, w, k, x)
  {
    var n := Reaches(t.demux, t.row, x);
    MulInsideRow(k, t.row, t.column);
    PlaceInRow(t, k, n);
    assert SentFrom(t, v, w, k * t.row + n);
  }

  lemma MulInsideRow(k: nat, m: nat, n: nat)
    requires m > 0 && k * m + m <= n * m
    ensures k < n
  {
    MulMonotone(n, if k < n then n else k, m);
  }

  // ---- Parity ----

  const GROUP := 360

  /** `p` is the codeword `c` with its parity bits interleaved: bit K + 360 t + s comes from K + Q s + t. */
  ghost predicate ParityInterleaved<T(!new)>(c: seq<T>, p: seq<T>, K: nat, Q: nat)
  {
    && |c| == |p| == K + GROUP * Q
    && p[..K] == c[..K]
    && forall t: nat, s: nat :: t < Q && s < GROUP ==> ParityBit(c, p, K, Q, t, s)
  }

  ghost predicate ParityBit<T>(c: seq<T>, p: seq<T>, K: nat, Q: nat, t: nat, s: nat)
  {
    var i, j := K + GROUP * t + s, K + Q * s + t;
    i < |p| && j < |c| && p[i] == c[j]
  }

  /** Undoing it in the decoder's layout gives back the codeword. */
  lemma ParityRestores<T(!new)>(c: seq<T>, p: seq<T>, d: seq<T>, K: nat, Q: nat)
    requires ParityInterleaved(c, p, K, Q) && |d| == |p| && d[..K] == p[..K]
    requires forall t: nat, s: nat :: t < Q && s < GROUP ==> ParityBit(d, p, K, Q, t, s)
    ensures d == c
  {
    forall j | 0 <= j < |d| ensures d[j] == c[j] {
      if j < K {
        assert d[..K][j] == c[..K][j];
      } else {
        var s, t := (j - K) / Q, (j - K) % Q;
        GroupOf(j - K, Q);
        assert ParityBit(c, p, K, Q, t, s) && ParityBit(d, p, K, Q, t, s);
      }
    }
  }

  lemma GroupOf(x: nat, Q: nat)
    requires x < GROUP * Q
    ensures x / Q < GROUP && x == Q * (x / Q) + x % Q
  {
    MulMonotone(GROUP, if x / Q < GROUP then GROUP else x / Q, Q);
  }

  /** Parity interleaving is defined for every codeword. */
  lemma EveryParityCanBeSent<T(!new)>(c: seq<T>, K: nat, Q: nat) returns (p: seq<T>)
    requires |c| == K + GROUP * Q
    ensures ParityInterleaved(c, p, K, Q)
  {
    p := seq(|c|, i requires 0 <= i < |c| => if i < K then c[i] else ParityFrom(i - K, K, Q); c[K + Q * ((i - K) % GROUP) + (i - K) / GROUP]);
    assert p[..K] == c[..K];
    forall t: nat, s: nat | t < Q && s < GROUP ensures ParityBit(c, p, K, Q, t, s) {
      QuotientIsUnique(GROUP, t, s);
      ParityFrom(GROUP * t + s, K, Q);
    }
  }

  lemma ParityFrom(x: nat, K: nat, Q: nat)
    requires x < GROUP * Q
    ensures x / GROUP < Q && K + Q * (x % GROUP) + x / GROUP < K + GROUP * Q
  {
    RoomFor(x % GROUP, GROUP, Q);
  }
}
