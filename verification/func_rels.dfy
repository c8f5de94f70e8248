/**
 Functional-relation descriptors and the table they are read from.

 A descriptor says that the arguments of a relation at the source positions
 determine the argument at the target position. Each record of the table
 names a relation and gives a pattern string whose `S`, `T` and `X`
 characters stand for consecutive argument positions: `S` marks a source,
 `T` the target, `X` a position that is neither; other characters are filler.
 */
module FuncRels {

  /** Strictly increasing positions: the model of `std::set<unsigned>`. */
  predicate Increasing(s: seq<nat>)
  {
    forall i, j :: 0 <= i < j < |s| ==> s[i] < s[j]
  }

  type PosSet = s: seq<nat> | Increasing(s) witness []

  /** `FunctionalRelationDesc`, a pair of the source positions and the target
      position; a default-constructed pair has no sources and target 0. */
  datatype Desc = Desc(sources: PosSet, target: nat)

  /** The characters that stand for an argument position. */
  predicate Positional(c: char)
  {
    c == 'S' || c == 'T' || c == 'X'
  }

  /** The number of argument positions a pattern spans. The position of the
      character at index `j` of `p` is `Width(p[..j])`. */
  function Width(p: string): nat
    decreases |p|
  {
    if p == [] then 0
    else Width(p[..|p| - 1]) + (if Positional(p[|p| - 1]) then 1 else 0)
  }

  /** No character after index `j` is a `T`. */
  predicate NoTAfter(p: string, j: int)
  {
    forall k :: 0 <= k < |p| && j < k ==> p[k] != 'T'
  }

  /** The pattern scan of `readFuncRelInfo`: reads the pattern left to right
      with a position counter starting at 0; `S` adds the counter to the
      sources, `T` sets the target to it, and `S`, `T`, `X` advance it. */
  function Scan(p: string): (d: Desc)
    ensures forall k | k in d.sources :: k < Width(p)
    decreases |p|
  {
    if p == [] then Desc([], 0)
    else
      var q := p[..|p| - 1];
      var d := Scan(q);
      match p[|p| - 1]
      case 'S' => Desc(Append(d.sources, Width(q)), d.target)
      case 'T' => Desc(d.sources, Width(q))
      case _ => d
  }

  /** Adds a position above all present ones. */
  function Append(s: PosSet, k: nat): (r: PosSet)
    requires forall x | x in s :: x < k
    ensures r == s + [k]
  {
    var r := s + [k];
    assert forall i, j | 0 <= i < j < |r| :: r[i] < r[j] by {
      forall i, j | 0 <= i < j < |r|
        ensures r[i] < r[j]
      {
        assert r[i] == s[i];
        if j == |s| {
          assert s[i] in s;
        }
      }
    }
    r
  }

  /** Splits a pattern into its last character and the rest. */
  lemma SplitLast(p: string, j: int)
    requires p != [] && 0 <= j < |p| - 1
    ensures p[..j] == p[..|p| - 1][..j] && p[j] == p[..|p| - 1][j]
  {
  }

  /** Every source position is the position of an `S`. */
  lemma {:induction false} ScanSourcesFromS(p: string, k: nat)
    requires k in Scan(p).sources
    ensures exists j :: 0 <= j < |p| && p[j] == 'S' && Width(p[..j]) == k
    decreases |p|
  {
    var q := p[..|p| - 1];
    if k in Scan(q).sources {
      ScanSourcesFromS(q, k);
      var j :| 0 <= j < |q| && q[j] == 'S' && Width(q[..j]) == k;
      SplitLast(p, j);
    } else {
      assert p[..|p| - 1] == q;
    }
  }

  /** The position of every `S` is a source position. */
  lemma {:induction false} ScanSFromSources(p: string, j: int)
    requires 0 <= j < |p| && p[j] == 'S'
    ensures Width(p[..j]) in Scan(p).sources
    decreases |p|
  {
    var q := p[..|p| - 1];
    if j < |p| - 1 {
      ScanSFromSources(q, j);
      SplitLast(p, j);
    }
  }

  /** Without a `T` the target keeps the default value 0. */
  lemma {:induction false} ScanTargetDefault(p: string)
    requires NoTAfter(p, -1)
    ensures Scan(p).target == 0
    decreases |p|
  {
    if p != [] {
      var q := p[..|p| - 1];
      assert NoTAfter(q, -1) by {
        forall k | 0 <= k < |q|
          ensures q[k] != 'T'
        {
          SplitLast(p, k);
        }
      }
      ScanTargetDefault(q);
    }
  }

  /** The target is the position of the last `T`: a later `T` overwrites an
      earlier one. */
  lemma {:induction false} ScanTargetLast(p: string, j: int)
    requires 0 <= j < |p| && p[j] == 'T' && NoTAfter(p, j)
    ensures Scan(p).target == Width(p[..j])
    decreases |p|
  {
    var q := p[..|p| - 1];
    if j < |p| - 1 {
      SplitLast(p, j);
      assert NoTAfter(q, j) by {
        forall k | 0 <= k < |q| && j < k
          ensures q[k] != 'T'
        {
          SplitLast(p, k);
        }
      }
      ScanTargetLast(q, j);
    } else {
      assert p[..j] == q;
    }
  }

  /** Removes the filler characters of a pattern. */
  function Strip(p: string): (r: string)
    ensures forall k | 0 <= k < |r| :: Positional(r[k])
    decreases |p|
  {
    if p == [] then []
    else
      var q := Strip(p[..|p| - 1]);
      if Positional(p[|p| - 1]) then q + [p[|p| - 1]] else q
  }

  /** Only `S`, `T` and `X` advance the position counter: filler characters
      can be removed without changing the descriptor, and in a pattern without
      filler every character is one position. */
  lemma {:induction false} FillerIgnored(p: string)
    ensures Scan(Strip(p)) == Scan(p)
    ensures Width(Strip(p)) == |Strip(p)| == Width(p)
    decreases |p|
  {
    if p != [] {
      var q := p[..|p| - 1];
      var c := p[|p| - 1];
      FillerIgnored(q);
      if Positional(c) {
        var s := Strip(q) + [c];
        assert Strip(p) == s;
        assert s[..|s| - 1] == Strip(q);
      }
    }
  }

  /** The worked examples: `STX` has source {0} and target 1, `SSXT` has
      sources {0, 1} and target 3, and `SX`, without a `T`, has source {0}
      and the default target 0, the same position as its source. */
  lemma ScanExamples()
    ensures Scan("STX") == Desc([0], 1)
    ensures Scan("SSXT") == Desc([0, 1], 3)
    ensures Scan("SX") == Desc([0], 0)
  {
    ScanSTX();
    ScanSSXT();
    ScanSX();
  }

  lemma ScanSTX()
    ensures Scan("STX") == Desc([0], 1)
  {
    ScanST();
    assert "STX"[..2] == "ST";
  }

  lemma ScanSSXT()
    ensures Scan("SSXT") == Desc([0, 1], 3)
  {
    ScanSS();
    assert "SSXT"[..3] == "SSX" && "SSX"[..2] == "SS";
  }

  lemma ScanSX()
    ensures Scan("SX") == Desc([0], 0)
  {
    ScanS();
    assert "SX"[..1] == "S";
  }

  lemma ScanS()
    ensures Scan("S") == Desc([0], 0)
  {
    assert "S"[..0] == "";
  }

  /** `ST` gives the same descriptor as `STX`: a trailing `X` adds nothing. */
  lemma ScanST()
    ensures Scan("ST") == Desc([0], 1)
  {
    ScanS();
    assert "ST"[..1] == "S";
  }

  lemma ScanSS()
    ensures Scan("SS") == Desc([0, 1], 0)
  {
    ScanS();
    assert "SS"[..1] == "S";
  }

  /** One record of the descriptor table: a relation name and a pattern. */
  datatype Record = Record(name: string, pattern: string)

  /** One entry of the descriptor multimap. */
  datatype Entry = Entry(name: string, desc: Desc)

  /** `std::multimap<std::string, FunctionalRelationDesc>`, as its entries in
      insertion order; entries with equal keys keep that order. */
  type FuncRelMap = seq<Entry>

  /** The record-to-multimap step of `readFuncRelInfo`: a record with an
      empty relation name is skipped, every other record adds one entry. */
  function ReadFuncRelInfo(records: seq<Record>): (m: FuncRelMap)
    ensures forall e | e in m :: e.name != ""
    ensures |m| <= |records|
    decreases |records|
  {
    if records == [] then []
    else
      var r := records[0];
      (if r.name == "" then [] else [Entry(r.name, Scan(r.pattern))])
        + ReadFuncRelInfo(records[1..])
  }

  /** Records are read one at a time: the table read from two consecutive
      parts is the concatenation of the tables read from each part. */
  lemma {:induction false} ReadConcat(a: seq<Record>, b: seq<Record>)
    ensures ReadFuncRelInfo(a + b) == ReadFuncRelInfo(a) + ReadFuncRelInfo(b)
    decreases |a|
  {
    if a == [] {
      assert a + b == b;
    } else {
      var r := a[0];
      var head: FuncRelMap := if r.name == "" then [] else [Entry(r.name, Scan(r.pattern))];
      assert (a + b)[0] == r;
      assert (a + b)[1..] == a[1..] + b;
      assert ReadFuncRelInfo(a + b) == head + ReadFuncRelInfo(a[1..] + b);
      ReadConcat(a[1..], b);
      assert ReadFuncRelInfo(a) == head + ReadFuncRelInfo(a[1..]);
    }
  }

  /** `equal_range`: the descriptors registered under a name, in insertion order. */
  function Lookup(m: FuncRelMap, name: string): (ds: seq<Desc>)
    ensures forall d | d in ds :: Entry(name, d) in m
    ensures forall e | e in m && e.name == name :: e.desc in ds
    ensures |ds| <= |m|
    decreases |m|
  {
    if m == [] then []
    else
      var rest := Lookup(m[1..], name);
      assert forall e | e in m && e != m[0] :: e in m[1..];
      if m[0].name == name then [m[0].desc] + rest else rest
  }

  /** Entries are not merged: each descriptor is looked up as often as an
      entry with that name and descriptor occurs, so repeated entries each
      yield their own descriptor. */
  lemma {:induction false} LookupCount(m: FuncRelMap, name: string, d: Desc)
    ensures multiset(Lookup(m, name))[d] == multiset(m)[Entry(name, d)]
    decreases |m|
  {
    if m != [] {
      LookupCount(m[1..], name, d);
      assert m == [m[0]] + m[1..];
      assert multiset(m) == multiset([m[0]]) + multiset(m[1..]);
      var rest := Lookup(m[1..], name);
      if m[0].name == name {
        assert multiset(Lookup(m, name)) == multiset([m[0].desc]) + multiset(rest);
      } else {
        assert Lookup(m, name) == rest;
      }
    }
  }

  /** `count`: whether a relation has any registered descriptor. */
  predicate IsFunctional(m: FuncRelMap, name: string)
  {
    |Lookup(m, name)| > 0
  }

  lemma IsFunctionalIff(m: FuncRelMap, name: string)
    ensures IsFunctional(m, name) <==> exists e | e in m :: e.name == name
  {
    if exists e | e in m :: e.name == name {
      var e :| e in m && e.name == name;
      assert e.desc in Lookup(m, name);
    }
    if IsFunctional(m, name) {
      var ds := Lookup(m, name);
      assert ds[0] in ds;
      assert Entry(name, ds[0]) in m;
    }
  }

  /** The patterns of the records with a given name, in table order. */
  function PatternsNamed(records: seq<Record>, name: string): seq<string>
    decreases |records|
  {
    if records == [] then []
    else
      (if records[0].name == name then [records[0].pattern] else [])
        + PatternsNamed(records[1..], name)
  }

  /** The descriptors of the patterns, one each, in order. */
  function ScanAll(ps: seq<string>): (ds: seq<Desc>)
    ensures |ds| == |ps|
    ensures forall k | 0 <= k < |ps| :: ds[k] == Scan(ps[k])
    decreases |ps|
  {
    if ps == [] then [] else [Scan(ps[0])] + ScanAll(ps[1..])
  }

  /** What reading the table registers under a name: nothing under the empty
      name; under any other name one descriptor per record with that name,
      the scan of its pattern, in table order, repeated names not merged. */
  lemma {:induction false} LookupAfterRead(records: seq<Record>, name: string)
    ensures name == "" ==> Lookup(ReadFuncRelInfo(records), name) == []
    ensures name != "" ==>
      Lookup(ReadFuncRelInfo(records), name) == ScanAll(PatternsNamed(records, name))
    decreases |records|
  {
    var m := ReadFuncRelInfo(records);
    if records != [] {
      LookupAfterRead(records[1..], name);
      var r := records[0];
      var rest := ReadFuncRelInfo(records[1..]);
      if r.name == "" {
        assert m == rest;
      } else {
        assert m == [Entry(r.name, Scan(r.pattern))] + rest;
        assert m[1..] == rest;
      }
      if name != "" {
        var ps := PatternsNamed(records, name);
        if r.name == name {
          assert ps == [r.pattern] + PatternsNamed(records[1..], name);
          assert ps[1..] == PatternsNamed(records[1..], name);
        } else {
          assert ps == PatternsNamed(records[1..], name);
        }
      }
    }
  }
}
