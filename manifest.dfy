/**
 * The metadata file of the local block store: a version word, an entry count,
 * and then one record per entry, in the ascending key order of std::map.
 * Keys and values are byte strings.
 */
module Manifest {
  import opened Bytes

  type Bytestring = seq<uint8>
  type Meta = map<Bytestring, Bytestring>

  const MANIFEST_VERSION: uint32 := 1

  // ----- std::string ordering: bytewise, a proper prefix first

  predicate LexLe(a: Bytestring, b: Bytestring)
    decreases |a|
  {
    |a| == 0 || (|b| > 0 && (a[0] < b[0] || (a[0] == b[0] && LexLe(a[1..], b[1..]))))
  }

  lemma {:induction false} LexLeReflexive(a: Bytestring)
    ensures LexLe(a, a)
    decreases |a|
  {
    if |a| > 0 {
      LexLeReflexive(a[1..]);
    }
  }

  lemma {:induction false} LexLeTotal(a: Bytestring, b: Bytestring)
    ensures LexLe(a, b) || LexLe(b, a)
    decreases |a|
  {
    if |a| > 0 && |b| > 0 && a[0] == b[0] {
      LexLeTotal(a[1..], b[1..]);
    }
  }

  lemma {:induction false} LexLeAntisymmetric(a: Bytestring, b: Bytestring)
    requires LexLe(a, b) && LexLe(b, a)
    ensures a == b
    decreases |a|
  {
    if |a| > 0 {
      LexLeAntisymmetric(a[1..], b[1..]);
      assert a == [a[0]] + a[1..] && b == [b[0]] + b[1..];
    }
  }

  lemma {:induction false} LexLeTransitive(a: Bytestring, b: Bytestring, c: Bytestring)
    requires LexLe(a, b) && LexLe(b, c)
    ensures LexLe(a, c)
    decreases |a|
  {
    if |a| > 0 && a[0] == b[0] && b[0] == c[0] {
      LexLeTransitive(a[1..], b[1..], c[1..]);
    }
  }

  predicate IsLeast(k: Bytestring, keys: set<Bytestring>) {
    k in keys && forall j :: j in keys ==> LexLe(k, j)
  }

  lemma {:induction false} LeastExists(keys: set<Bytestring>)
    requires keys != {}
    ensures exists k :: IsLeast(k, keys)
    decreases |keys|
  {
    var x :| x in keys;
    if keys == {x} {
      LexLeReflexive(x);
      assert IsLeast(x, keys);
    } else {
      LeastExists(keys - {x});
      var k :| IsLeast(k, keys - {x});
      LexLeTotal(k, x);
      if LexLe(k, x) {
        assert IsLeast(k, keys);
      } else {
        forall j | j in keys
          ensures LexLe(x, j)
        {
          if j == x {
            LexLeReflexive(x);
          } else {
            LexLeTransitive(x, k, j);
          }
        }
        assert IsLeast(x, keys);
      }
    }
  }

  /** The key std::map visits first. */
  ghost function Least(keys: set<Bytestring>): (k: Bytestring)
    requires keys != {}
    ensures IsLeast(k, keys)
  {
    LeastExists(keys);
    var k :| IsLeast(k, keys);
    k
  }

  /** There is only one least key. */
  lemma LeastUnique(k: Bytestring, keys: set<Bytestring>)
    requires IsLeast(k, keys)
    ensures k == Least(keys)
  {
    LexLeAntisymmetric(k, Least(keys));
  }

  // ----- the format

  /**
   * One record as saveMetaData writes it. The name's size is taken into a 32-bit
   * variable, and a name whose truncated size is 0 is skipped; the value's bytes
   * are written only when its truncated size is not 0.
   */
  function Entry(name: Bytestring, value: Bytestring): (r: seq<uint8>)
    ensures 0 < |name| < TWO_32 && |value| < TWO_32 ==> |r| == 8 + |name| + |value|
    ensures |name| == 0 ==> r == []
  {
    Pow256Values();
    var nameSize := |name| % TWO_32;
    var valueSize := |value| % TWO_32;
    if nameSize == 0 then []
    else LE(nameSize, 4) + name + LE(valueSize, 4) + (if valueSize != 0 then value else [])
  }

  /** The entries of `m`, in ascending key order. */
  ghost function Pairs(m: Meta): (ps: seq<(Bytestring, Bytestring)>)
    ensures |ps| == |m|
    decreases |m|
  {
    if |m| == 0 then [] else
      var k := Least(m.Keys);
      [(k, m[k])] + Pairs(m - {k})
  }

  /** The records of a list of entries, one after the other. */
  function Records(ps: seq<(Bytestring, Bytestring)>): seq<uint8> {
    if ps == [] then [] else Entry(ps[0].0, ps[0].1) + Records(ps[1..])
  }

  /** The records of all entries, in ascending key order. */
  ghost function Entries(m: Meta): seq<uint8> {
    Records(Pairs(m))
  }

  /** The entries of `ps` stored into `acc` in order, a later one overwriting an earlier. */
  function Merge(acc: Meta, ps: seq<(Bytestring, Bytestring)>): Meta
    decreases |ps|
  {
    if ps == [] then acc else Merge(acc[ps[0].0 := ps[0].1], ps[1..])
  }

  /** The whole file. The count is that of all entries, skipped ones included. */
  ghost function Encode(m: Meta): seq<uint8> {
    Pow256Values();
    var count := |m| % TWO_64;
    LE(MANIFEST_VERSION, 4) + LE(count, 8) + (if count != 0 then Entries(m) else [])
  }

  datatype ManifestError = ReadVersion | ReadVarCount | ReadVarSize | ReadVarName | ReadValSize | ReadVarVal

  /**
   * What loadMetaData leaves in the map, starting from `acc`, and the error it
   * throws if any: entries read before a failure stay merged in.
   */
  datatype Decoded = Decoded(meta: Meta, error: Option<ManifestError>)

  /** One record: a 32-bit name size, the name, a 32-bit value size, the value. */
  function ReadRecord(f: seq<uint8>): (r: Result<(Bytestring, Bytestring, seq<uint8>), ManifestError>)
    ensures r.Ok? ==> 8 + |r.value.0| + |r.value.1| + |r.value.2| == |f|
  {
    if |f| < 4 then Err(ReadVarSize)
    else
      var nameSize, g := FromLE(f[..4]), f[4..];
      if |g| < nameSize then Err(ReadVarName)
      else
        var name, rest := g[..nameSize], g[nameSize..];
        if |rest| < 4 then Err(ReadValSize)
        else
          var valueSize, h := FromLE(rest[..4]), rest[4..];
          if |h| < valueSize then Err(ReadVarVal)
          else Ok((name, h[..valueSize], h[valueSize..]))
  }

  /** `count` records merged into `acc` one after the other. */
  function DecodeEntries(f: seq<uint8>, count: nat, acc: Meta): (d: Decoded)
    ensures count == 0 ==> d == Decoded(acc, None)
    decreases count
  {
    if count == 0 then Decoded(acc, None)
    else
      match ReadRecord(f)
      case Err(e) => Decoded(acc, Some(e))
      case Ok((name, value, rest)) => DecodeEntries(rest, count - 1, acc[name := value])
  }

  /** Bytes after the last record are ignored; the version is not checked. */
  function Decode(f: seq<uint8>, acc: Meta): (d: Decoded)
    ensures |f| < 4 ==> d == Decoded(acc, Some(ReadVersion))
    ensures 4 <= |f| < 12 ==> d == Decoded(acc, Some(ReadVarCount))
  {
    if |f| < 4 then Decoded(acc, Some(ReadVersion))
    else if |f| < 12 then Decoded(acc, Some(ReadVarCount))
    else DecodeEntries(f[12..], FromLE(f[4..12]), acc)
  }

  // ----- properties

  /** Every name and value fits its 32-bit size field. */
  predicate Small(m: Meta) {
    forall k :: k in m ==> |k| < TWO_32 && |m[k]| < TWO_32
  }

  /** Reading one record whose sizes fit gives back its name and value and the bytes after it. */
  lemma ReadRecordOfEntry(name: Bytestring, value: Bytestring, after: seq<uint8>)
    requires 0 < |name| < TWO_32 && |value| < TWO_32
    ensures ReadRecord(Entry(name, value) + after) == Ok((name, value, after))
  {
    EntryLayout(name, value, after);
    Pow256Values();
    var nameSize, valueSize := LE(|name|, 4), LE(|value|, 4);
    var h := value + after;
    var rest := valueSize + h;
    var g := name + rest;
    Split(nameSize, g);
    Split(name, rest);
    Split(valueSize, h);
    Split(value, after);
    FromLEOfLE(|name|, 4);
    FromLEOfLE(|value|, 4);
  }

  /** A record followed by more bytes, field by field. */
  lemma EntryLayout(name: Bytestring, value: Bytestring, after: seq<uint8>)
    requires 0 < |name| < TWO_32 && |value| < TWO_32
    ensures Pow256(4) == TWO_32
    ensures Entry(name, value) + after == LE(|name|, 4) + (name + (LE(|value|, 4) + (value + after)))
  {
    Pow256Values();
    EntryFields(name, value);
    var a, b := LE(|name|, 4), LE(|value|, 4);
    Assoc(a + name + b, value, after);
    Assoc(a + name, b, value + after);
    Assoc(a, name, b + (value + after));
  }

  /** A record whose sizes fit holds them as written. */
  lemma EntryFields(name: Bytestring, value: Bytestring)
    requires 0 < |name| < TWO_32 && |value| < TWO_32
    ensures Pow256(4) == TWO_32
    ensures Entry(name, value) == LE(|name|, 4) + name + LE(|value|, 4) + value
  {
    Pow256Values();
    var nameSize, valueSize := |name| % TWO_32, |value| % TWO_32;
    assert nameSize == |name| && valueSize == |value|;
  }

  lemma Split(a: seq<uint8>, b: seq<uint8>)
    ensures (a + b)[..|a|] == a && (a + b)[|a|..] == b
  {
  }

  /** Every entry of `ps` has a name that is written and sizes that fit. */
  predicate Writable(ps: seq<(Bytestring, Bytestring)>) {
    forall i :: 0 <= i < |ps| ==> 0 < |ps[i].0| < TWO_32 && |ps[i].1| < TWO_32
  }

  /**
   * Reading the records of writable entries merges them in order, giving `merged`,
   * and leaves the reader after them.
   */
  lemma {:induction false} DecodeRecords(ps: seq<(Bytestring, Bytestring)>, tail: seq<uint8>, count: nat, extra: nat, acc: Meta, merged: Meta)
    requires Writable(ps) && count == |ps| + extra && merged == Merge(acc, ps)
    ensures DecodeEntries(Records(ps) + tail, count, acc) == DecodeEntries(tail, extra, merged)
    decreases |ps|, 1
  {
    if ps == [] {
      assert Records(ps) + tail == tail;
    } else {
      DecodeNonEmpty(ps, tail, count, extra, acc, merged);
    }
  }

  lemma {:induction false} DecodeNonEmpty(ps: seq<(Bytestring, Bytestring)>, tail: seq<uint8>, count: nat, extra: nat, acc: Meta, merged: Meta)
    requires ps != [] && Writable(ps) && count == |ps| + extra && merged == Merge(acc, ps)
    ensures DecodeEntries(Records(ps) + tail, count, acc) == DecodeEntries(tail, extra, merged)
    decreases |ps|, 0
  {
    DecodeHead(ps, tail, count, acc);
    WritableTail(ps);
    DecodeRecords(ps[1..], tail, count - 1, extra, acc[ps[0].0 := ps[0].1], merged);
  }

  /** The first of the records read, the others still to come. */
  lemma DecodeHead(ps: seq<(Bytestring, Bytestring)>, tail: seq<uint8>, count: nat, acc: Meta)
    requires ps != [] && Writable(ps) && count > 0
    ensures DecodeEntries(Records(ps) + tail, count, acc)
      == DecodeEntries(Records(ps[1..]) + tail, count - 1, acc[ps[0].0 := ps[0].1])
    ensures Merge(acc, ps) == Merge(acc[ps[0].0 := ps[0].1], ps[1..])
  {
    var name, value := ps[0].0, ps[0].1;
    RecordsFirst(ps, tail, acc);
    DecodeOne(name, value, Records(ps[1..]) + tail, count, acc);
  }

  lemma RecordsFirst(ps: seq<(Bytestring, Bytestring)>, tail: seq<uint8>, acc: Meta)
    requires ps != []
    ensures Records(ps) + tail == Entry(ps[0].0, ps[0].1) + (Records(ps[1..]) + tail)
    ensures Merge(acc, ps) == Merge(acc[ps[0].0 := ps[0].1], ps[1..])
  {
  }

  /** One record, read in full and merged. */
  lemma DecodeOne(name: Bytestring, value: Bytestring, rest: seq<uint8>, count: nat, acc: Meta)
    requires 0 < |name| < TWO_32 && |value| < TWO_32 && count > 0
    ensures DecodeEntries(Entry(name, value) + rest, count, acc) == DecodeEntries(rest, count - 1, acc[name := value])
  {
    ReadRecordOfEntry(name, value, rest);
  }

  lemma WritableTail(ps: seq<(Bytestring, Bytestring)>)
    requires ps != [] && Writable(ps)
    ensures Writable(ps[1..])
  {
    forall i | 0 <= i < |ps[1..]|
      ensures 0 < |ps[1..][i].0| < TWO_32 && |ps[1..][i].1| < TWO_32
    {
      assert ps[1..][i] == ps[i + 1];
    }
  }

  /** The entries of a map without empty names, all small, are writable. */
  lemma {:induction false} PairsWritable(m: Meta)
    requires [] !in m && Small(m)
    ensures Writable(Pairs(m))
    decreases |m|
  {
    if |m| > 0 {
      var k := Least(m.Keys);
      var m' := m - {k};
      PairsFirst(m);
      PairsWritable(m');
      var ps := Pairs(m);
      forall i | 0 <= i < |ps|
        ensures 0 < |ps[i].0| < TWO_32 && |ps[i].1| < TWO_32
      {
        if i > 0 {
          assert ps[i] == Pairs(m')[i - 1];
        }
      }
    }
  }

  /** Merging the entries of `m` into `acc` is map union. */
  lemma {:induction false} MergePairs(m: Meta, acc: Meta)
    ensures Merge(acc, Pairs(m)) == acc + m
    decreases |m|
  {
    if |m| == 0 {
      assert m == map[];
      assert acc + m == acc;
    } else {
      var k := Least(m.Keys);
      var m' := m - {k};
      PairsFirst(m);
      MergePairs(m', acc[k := m[k]]);
      MergeFirst(acc, m, k);
    }
  }

  /** The entries of a non-empty map: its least one first. */
  lemma PairsFirst(m: Meta)
    requires |m| > 0
    ensures var k := Least(m.Keys);
      |m - {k}| == |m| - 1 && [] !in m ==> [] !in m - {k}
    ensures var k := Least(m.Keys);
      Pairs(m)[0] == (k, m[k]) && Pairs(m)[1..] == Pairs(m - {k})
    ensures var k := Least(m.Keys); Small(m) ==> Small(m - {k})
  {
  }

  lemma MergeFirst(acc: Meta, m: Meta, k: Bytestring)
    requires k in m
    ensures acc[k := m[k]] + (m - {k}) == acc + m
  {
  }

  /** Reading the records of `m` merges `m` into the map and leaves the reader after them. */
  lemma DecodeEntriesOfEntries(m: Meta, tail: seq<uint8>, count: nat, extra: nat, acc: Meta)
    requires [] !in m && Small(m) && count == |m| + extra
    ensures DecodeEntries(Entries(m) + tail, count, acc) == DecodeEntries(tail, extra, acc + m)
  {
    PairsWritable(m);
    MergePairs(m, acc);
    DecodeRecords(Pairs(m), tail, count, extra, acc, acc + m);
  }

  /** The records of a non-empty map: its least entry's first. */
  lemma EntriesFirst(m: Meta, tail: seq<uint8>)
    requires |m| > 0
    ensures var k := Least(m.Keys);
      |m - {k}| == |m| - 1 && Entries(m) + tail == Entry(k, m[k]) + (Entries(m - {k}) + tail)
  {
    var k := Least(m.Keys);
    assert Pairs(m)[1..] == Pairs(m - {k});
  }

  lemma EncodeParts(m: Meta)
    requires 0 < |m| < Pow256(8)
    ensures Encode(m)[4..12] == LE(|m|, 8) && Encode(m)[12..] == Entries(m) + []
  {
    Pow256Values();
    assert |m| % TWO_64 == |m|;
    var version := LE(MANIFEST_VERSION, 4);
    var count := LE(|m|, 8);
    assert Encode(m) == version + count + Entries(m);
    assert (version + count + Entries(m))[4..12] == count;
  }

  /** Without an empty name, loading a saved manifest into an empty map gives the map back. */
  lemma RoundTrip(m: Meta)
    requires [] !in m && Small(m) && |m| < TWO_64
    ensures Decode(Encode(m), map[]) == Decoded(m, None)
  {
    Pow256Values();
    if |m| == 0 {
      assert m == map[];
      assert Encode(m)[4..12] == LE(0, 8);
      FromLEOfLE(0, 8);
    } else {
      EncodeParts(m);
      FromLEOfLE(|m|, 8);
      DecodeEntriesOfEntries(m, [], |m|, 0, map[]);
      assert map[] + m == m;
    }
  }

  /**
   * An entry with an empty name is counted but not written, so loading the saved
   * manifest fails in the last record, after merging all the other entries.
   */
  lemma EmptyNameBreaksRoundTrip(m: Meta, acc: Meta)
    requires [] in m && Small(m) && |m| < TWO_64
    ensures Decode(Encode(m), acc) == Decoded(acc + (m - {[]}), Some(ReadVarSize))
  {
    Pow256Values();
    var m' := m - {[]};
    assert IsLeast([], m.Keys);
    LeastUnique([], m.Keys);
    assert Entries(m) == Entries(m');
    EncodeParts(m);
    FromLEOfLE(|m|, 8);
    assert |m| == |m'| + 1;
    DecodeEntriesOfEntries(m', [], |m|, 1, acc);
  }
}
