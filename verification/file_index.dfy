/** The filename matcher of the parallel script: the folder listing is
    turned into the dictionary `{f.lower(): f for f in files}`
    (pdfpl.py:152-153), and the candidates for an identifier are the
    original names whose folded key contains the folded identifier, in the
    dictionary's order (pdfpl.py:14). A Python dictionary keeps a key at the
    position of its first insertion and the value of its last assignment. */
module FileIndex {
  import opened Wrappers
  import opened Text

  datatype Entry = Entry(key: String, file: String)

  predicate DistinctKeys(idx: seq<Entry>)
  {
    forall a, b :: 0 <= a < b < |idx| ==> idx[a].key != idx[b].key
  }

  /** The dictionary read `d.get(key)`. */
  function Lookup(idx: seq<Entry>, key: String): (r: Option<String>)
    ensures r.Some? <==> exists j :: 0 <= j < |idx| && idx[j].key == key
    ensures r.Some? ==> exists j :: 0 <= j < |idx| && idx[j].key == key && idx[j].file == r.value
  {
    if |idx| == 0 then None
    else if idx[0].key == key then Some(idx[0].file)
    else
      var r := Lookup(idx[1..], key);
      assert forall j :: 1 <= j < |idx| ==> idx[j] == idx[1..][j - 1];
      assert r.Some? ==> idx[Witness(idx[1..], key, r.value) + 1].file == r.value;
      r
  }

  /** Some position holding `key` and `file`. */
  ghost function Witness(idx: seq<Entry>, key: String, file: String): (j: nat)
    requires exists j :: 0 <= j < |idx| && idx[j].key == key && idx[j].file == file
    ensures j < |idx| && idx[j].key == key && idx[j].file == file
  {
    var j :| 0 <= j < |idx| && idx[j].key == key && idx[j].file == file; j
  }

  /** The dictionary write `d[key] = file`: overwrite in place, or append. */
  function Put(idx: seq<Entry>, key: String, file: String): (r: seq<Entry>)
    requires DistinctKeys(idx)
    ensures DistinctKeys(r)
    ensures forall k :: Lookup(r, k) == if k == key then Some(file) else Lookup(idx, k)
    ensures Keys(r) == if key in Keys(idx) then Keys(idx) else Keys(idx) + [key]
  {
    if |idx| == 0 then [Entry(key, file)]
    else if idx[0].key == key then
      PutFront(idx, key, file);
      [Entry(key, file)] + idx[1..]
    else
      var tail := Put(idx[1..], key, file);
      PutBehind(idx, key, file, tail);
      [idx[0]] + tail
  }

  lemma PutFront(idx: seq<Entry>, key: String, file: String)
    requires DistinctKeys(idx) && |idx| > 0 && idx[0].key == key
    ensures var r := [Entry(key, file)] + idx[1..];
      && DistinctKeys(r)
      && (forall k :: Lookup(r, k) == if k == key then Some(file) else Lookup(idx, k))
      && key in Keys(idx) && Keys(r) == Keys(idx)
  {
    var r := [Entry(key, file)] + idx[1..];
    assert r[1..] == idx[1..];
    assert Keys(idx)[0] == key;
    assert forall j :: 0 <= j < |r| ==> r[j].key == idx[j].key;
  }

  lemma PutBehind(idx: seq<Entry>, key: String, file: String, tail: seq<Entry>)
    requires DistinctKeys(idx) && |idx| > 0 && idx[0].key != key
    requires DistinctKeys(tail)
    requires forall k :: Lookup(tail, k) == if k == key then Some(file) else Lookup(idx[1..], k)
    requires Keys(tail) == if key in Keys(idx[1..]) then Keys(idx[1..]) else Keys(idx[1..]) + [key]
    ensures var r := [idx[0]] + tail;
      && DistinctKeys(r)
      && (forall k :: Lookup(r, k) == if k == key then Some(file) else Lookup(idx, k))
      && Keys(r) == if key in Keys(idx) then Keys(idx) else Keys(idx) + [key]
  {
    HeadKeyFresh(idx);
    PutBehindDistinct(idx, key, tail);
    PutBehindLookup(idx, key, file, tail);
    PutBehindKeys(idx, key, tail);
  }

  /** The first key of a dictionary appears nowhere after it. */
  lemma HeadKeyFresh(idx: seq<Entry>)
    requires DistinctKeys(idx) && |idx| > 0
    ensures idx[0].key !in Keys(idx[1..])
  {
    forall j | 0 <= j < |idx[1..]| ensures Keys(idx[1..])[j] != idx[0].key {
      assert idx[1..][j] == idx[j + 1];
    }
  }

  lemma PutBehindDistinct(idx: seq<Entry>, key: String, tail: seq<Entry>)
    requires |idx| > 0 && idx[0].key != key && idx[0].key !in Keys(idx[1..])
    requires DistinctKeys(tail)
    requires Keys(tail) == if key in Keys(idx[1..]) then Keys(idx[1..]) else Keys(idx[1..]) + [key]
    ensures DistinctKeys([idx[0]] + tail)
  {
    var r := [idx[0]] + tail;
    assert idx[0].key !in Keys(tail);
    forall a, b | 0 <= a < b < |r| ensures r[a].key != r[b].key {
      if a == 0 {
        assert r[b] == tail[b - 1];
        assert Keys(tail)[b - 1] == tail[b - 1].key;
      } else {
        assert r[a] == tail[a - 1] && r[b] == tail[b - 1];
      }
    }
  }

  lemma PutBehindLookup(idx: seq<Entry>, key: String, file: String, tail: seq<Entry>)
    requires |idx| > 0 && idx[0].key != key
    requires forall k :: Lookup(tail, k) == if k == key then Some(file) else Lookup(idx[1..], k)
    ensures forall k :: Lookup([idx[0]] + tail, k) == if k == key then Some(file) else Lookup(idx, k)
  {
    var r := [idx[0]] + tail;
    assert r[1..] == tail;
    forall k ensures Lookup(r, k) == if k == key then Some(file) else Lookup(idx, k) {
      if k != idx[0].key {
        assert Lookup(r, k) == Lookup(tail, k);
        assert Lookup(idx, k) == Lookup(idx[1..], k);
      }
    }
  }

  lemma PutBehindKeys(idx: seq<Entry>, key: String, tail: seq<Entry>)
    requires |idx| > 0 && idx[0].key != key
    requires Keys(tail) == if key in Keys(idx[1..]) then Keys(idx[1..]) else Keys(idx[1..]) + [key]
    ensures Keys([idx[0]] + tail) == if key in Keys(idx) then Keys(idx) else Keys(idx) + [key]
  {
    KeysCons(idx[0], tail);
    assert idx == [idx[0]] + idx[1..];
    KeysCons(idx[0], idx[1..]);
  }

  lemma KeysCons(e: Entry, rest: seq<Entry>)
    ensures Keys([e] + rest) == [e.key] + Keys(rest)
  {
    assert forall j :: 1 <= j < |rest| + 1 == |[e] + rest| ==> ([e] + rest)[j] == rest[j - 1];
  }

  function Keys(idx: seq<Entry>): (ks: seq<String>)
    ensures |ks| == |idx|
    ensures forall j :: 0 <= j < |idx| ==> ks[j] == idx[j].key
  {
    seq(|idx|, j requires 0 <= j < |idx| => idx[j].key)
  }

  // ---------------------------------------------------------------------
  // Reference definitions over the folder listing

  /** The last file in the listing whose folded name is `key`. */
  function LatestWith(files: seq<String>, key: String): (r: Option<String>)
    ensures r.Some? ==> r.value in files && Lower(r.value) == key
    ensures r.None? ==> forall f :: f in files ==> Lower(f) != key
  {
    if |files| == 0 then None
    else if Lower(Last(files)) == key then Some(Last(files))
    else
      assert files == files[..|files| - 1] + [Last(files)];
      LatestWith(files[..|files| - 1], key)
  }

  /** The folded names in order of first appearance. */
  function FirstAppearances(keys: seq<String>): seq<String>
  {
    if |keys| == 0 then []
    else
      var earlier := FirstAppearances(keys[..|keys| - 1]);
      if Last(keys) in earlier then earlier else earlier + [Last(keys)]
  }

  function LowerAll(files: seq<String>): (r: seq<String>)
    ensures |r| == |files|
    ensures forall j :: 0 <= j < |files| ==> r[j] == Lower(files[j])
  {
    seq(|files|, j requires 0 <= j < |files| => Lower(files[j]))
  }

  /** `{f.lower(): f for f in files}`. */
  function BuildIndex(files: seq<String>): (idx: seq<Entry>)
    ensures DistinctKeys(idx)
  {
    if |files| == 0 then []
    else Put(BuildIndex(files[..|files| - 1]), Lower(Last(files)), Last(files))
  }

  /** Every folded name is a key, and it maps to the last file in the
      listing with that folded name; nothing else is a key. */
  lemma {:induction false} BuildIndexLookup(files: seq<String>, key: String)
    ensures Lookup(BuildIndex(files), key) == LatestWith(files, key)
    decreases |files|
  {
    if |files| > 0 {
      BuildIndexLookup(files[..|files| - 1], key);
    }
  }

  /** Keys keep the position of their first insertion. */
  lemma {:induction false} BuildIndexOrder(files: seq<String>)
    ensures Keys(BuildIndex(files)) == FirstAppearances(LowerAll(files))
    decreases |files|
  {
    if |files| > 0 {
      var init := files[..|files| - 1];
      BuildIndexOrder(init);
      assert LowerAll(files)[..|files| - 1] == LowerAll(init);
    }
  }

  // ---------------------------------------------------------------------
  // The matcher

  /** `[idx[k] for k in idx if needle in k]`. */
  function Matches(idx: seq<Entry>, needle: String): (r: seq<String>)
    ensures |r| <= |idx|
    ensures forall f :: f in r <==> exists j :: 0 <= j < |idx| && idx[j].file == f && Contains(idx[j].key, needle)
    ensures |r| > 0 ==> exists j :: 0 <= j < |idx| && idx[j].file == r[0] && Contains(idx[j].key, needle)
                                   && forall j' :: 0 <= j' < j ==> !Contains(idx[j'].key, needle)
  {
    if |idx| == 0 then []
    else
      var tail := Matches(idx[1..], needle);
      assert forall j :: 1 <= j < |idx| ==> idx[j] == idx[1..][j - 1];
      MatchesTail(idx, needle, tail);
      if Contains(idx[0].key, needle) then [idx[0].file] + tail else tail
  }

  lemma MatchesTail(idx: seq<Entry>, needle: String, tail: seq<String>)
    requires |idx| > 0
    requires forall f :: f in tail <==> exists j :: 0 <= j < |idx[1..]| && idx[1..][j].file == f && Contains(idx[1..][j].key, needle)
    requires |tail| > 0 ==> exists j :: 0 <= j < |idx[1..]| && idx[1..][j].file == tail[0] && Contains(idx[1..][j].key, needle)
                                   && forall j' :: 0 <= j' < j ==> !Contains(idx[1..][j'].key, needle)
    ensures forall f :: f in tail ==> exists j :: 1 <= j < |idx| && idx[j].file == f && Contains(idx[j].key, needle)
    ensures forall j :: 1 <= j < |idx| && Contains(idx[j].key, needle) ==> idx[j].file in tail
    ensures |tail| > 0 && !Contains(idx[0].key, needle) ==>
      exists j :: 0 <= j < |idx| && idx[j].file == tail[0] && Contains(idx[j].key, needle)
                  && forall j' :: 0 <= j' < j ==> !Contains(idx[j'].key, needle)
  {
    assert forall j :: 1 <= j < |idx| ==> idx[j] == idx[1..][j - 1];
    forall f | f in tail
      ensures exists j :: 1 <= j < |idx| && idx[j].file == f && Contains(idx[j].key, needle)
    {
      var j :| 0 <= j < |idx[1..]| && idx[1..][j].file == f && Contains(idx[1..][j].key, needle);
      assert idx[j + 1].file == f;
    }
    forall j | 1 <= j < |idx| && Contains(idx[j].key, needle)
      ensures idx[j].file in tail
    {
      assert idx[1..][j - 1] == idx[j];
    }
    if |tail| > 0 && !Contains(idx[0].key, needle) {
      var j :| 0 <= j < |idx[1..]| && idx[1..][j].file == tail[0] && Contains(idx[1..][j].key, needle)
               && forall j' :: 0 <= j' < j ==> !Contains(idx[1..][j'].key, needle);
      assert forall j' :: 0 <= j' < j + 1 ==> !Contains(idx[j'].key, needle);
      assert idx[j + 1].file == tail[0];
    }
  }

  /** The positions, from `from` on, of the entries whose key contains
      the needle, in ascending order. */
  function MatchPositions(idx: seq<Entry>, needle: String, from: nat): (pos: seq<nat>)
    requires from <= |idx|
    ensures forall a :: 0 <= a < |pos| ==> from <= pos[a] < |idx| && Contains(idx[pos[a]].key, needle)
    ensures forall a, b :: 0 <= a < b < |pos| ==> pos[a] < pos[b]
    ensures forall j :: from <= j < |idx| && Contains(idx[j].key, needle) ==> j in pos
    decreases |idx| - from
  {
    if from == |idx| then []
    else
      var rest := MatchPositions(idx, needle, from + 1);
      if Contains(idx[from].key, needle) then
        PrependPosition(from, rest);
        [from] + rest
      else rest
  }

  /** A position below all the others can go in front, keeping the order. */
  lemma PrependPosition(p: nat, rest: seq<nat>)
    requires forall a :: 0 <= a < |rest| ==> p < rest[a]
    requires forall a, b :: 0 <= a < b < |rest| ==> rest[a] < rest[b]
    ensures forall a, b :: 0 <= a < b < |[p] + rest| ==> ([p] + rest)[a] < ([p] + rest)[b]
    ensures forall j :: j in rest ==> j in [p] + rest
    ensures p in [p] + rest
  {
    var r := [p] + rest;
    assert forall a :: 1 <= a < |r| ==> r[a] == rest[a - 1];
  }

  /** The files at the given positions, in the order given. */
  function FilesAt(idx: seq<Entry>, pos: seq<nat>): (r: seq<String>)
    requires forall a :: 0 <= a < |pos| ==> pos[a] < |idx|
    ensures |r| == |pos| && forall a :: 0 <= a < |pos| ==> r[a] == idx[pos[a]].file
  {
    seq(|pos|, a requires 0 <= a < |pos| => idx[pos[a]].file)
  }

  /** The candidates keep the dictionary's order: they are the files of
      the matching entries, in ascending position. */
  lemma MatchesInOrder(idx: seq<Entry>, needle: String)
    ensures Matches(idx, needle) == FilesAt(idx, MatchPositions(idx, needle, 0))
  {
    MatchesSuffix(idx, needle, 0);
    assert idx[0..] == idx;
  }

  lemma {:induction false} MatchesSuffix(idx: seq<Entry>, needle: String, from: nat)
    requires from <= |idx|
    ensures Matches(idx[from..], needle) == FilesAt(idx, MatchPositions(idx, needle, from))
    decreases |idx| - from
  {
    if from < |idx| {
      MatchesSuffix(idx, needle, from + 1);
      var suffix := idx[from..];
      assert suffix[0] == idx[from];
      assert suffix[1..] == idx[from + 1..];
      MatchesCons(suffix, needle);
      var rest := MatchPositions(idx, needle, from + 1);
      if Contains(idx[from].key, needle) {
        FilesAtCons(idx, from, rest);
      }
    }
  }

  /** The first candidate with some property is, in dictionary order, the
      first matching entry with it. */
  lemma FirstMatchWhere(idx: seq<Entry>, needle: String, p: String -> bool, k: nat)
    requires k < |Matches(idx, needle)| && p(Matches(idx, needle)[k])
    requires forall a :: 0 <= a < k ==> !p(Matches(idx, needle)[a])
    ensures exists j :: 0 <= j < |idx| && idx[j].file == Matches(idx, needle)[k] && Contains(idx[j].key, needle)
                        && forall j' :: 0 <= j' < j && Contains(idx[j'].key, needle) ==> !p(idx[j'].file)
  {
    var ms := Matches(idx, needle);
    MatchesInOrder(idx, needle);
    var pos := MatchPositions(idx, needle, 0);
    var j := pos[k];
    forall j' | 0 <= j' < j && Contains(idx[j'].key, needle)
      ensures !p(idx[j'].file)
    {
      var a :| 0 <= a < |pos| && pos[a] == j';
      EarlierPosition(pos, a, k);
      assert ms[a] == idx[j'].file;
    }
    assert idx[j].file == ms[k];
  }

  /** In an ascending list, a smaller value sits at an earlier index. */
  lemma EarlierPosition(pos: seq<nat>, a: nat, k: nat)
    requires a < |pos| && k < |pos| && pos[a] < pos[k]
    requires forall x, y :: 0 <= x < y < |pos| ==> pos[x] < pos[y]
    ensures a < k
  {
  }

  /** One step of the matcher. */
  lemma MatchesCons(idx: seq<Entry>, needle: String)
    requires |idx| > 0
    ensures Matches(idx, needle)
         == (if Contains(idx[0].key, needle) then [idx[0].file] else []) + Matches(idx[1..], needle)
  {
  }

  lemma FilesAtCons(idx: seq<Entry>, p: nat, rest: seq<nat>)
    requires p < |idx| && forall a :: 0 <= a < |rest| ==> rest[a] < |idx|
    ensures FilesAt(idx, [p] + rest) == [idx[p].file] + FilesAt(idx, rest)
  {
  }

  /** The candidates for an identifier are exactly the files of the
      listing whose folded name contains the folded identifier and which
      are the last in the listing with their folded name. */
  lemma MatchesMeaning(files: seq<String>, doc: String, f: String)
    ensures f in Matches(BuildIndex(files), Lower(doc))
        <==> f in files && Contains(Lower(f), Lower(doc)) && LatestWith(files, Lower(f)) == Some(f)
  {
    if f in Matches(BuildIndex(files), Lower(doc)) {
      MatchIsLatest(files, doc, f);
    }
    if f in files && Contains(Lower(f), Lower(doc)) && LatestWith(files, Lower(f)) == Some(f) {
      LatestMatches(files, doc, f);
    }
  }

  lemma MatchIsLatest(files: seq<String>, doc: String, f: String)
    requires f in Matches(BuildIndex(files), Lower(doc))
    ensures f in files && Contains(Lower(f), Lower(doc)) && LatestWith(files, Lower(f)) == Some(f)
  {
    var idx := BuildIndex(files);
    var j :| 0 <= j < |idx| && idx[j].file == f && Contains(idx[j].key, Lower(doc));
    BuildIndexLookup(files, idx[j].key);
    LookupAt(idx, j);
  }

  lemma LatestMatches(files: seq<String>, doc: String, f: String)
    requires Contains(Lower(f), Lower(doc)) && LatestWith(files, Lower(f)) == Some(f)
    ensures f in Matches(BuildIndex(files), Lower(doc))
  {
    var idx := BuildIndex(files);
    BuildIndexLookup(files, Lower(f));
    var j :| 0 <= j < |idx| && idx[j].key == Lower(f) && idx[j].file == f;
  }

  lemma LookupAt(idx: seq<Entry>, j: nat)
    requires DistinctKeys(idx) && j < |idx|
    ensures Lookup(idx, idx[j].key) == Some(idx[j].file)
  {
    var r := Lookup(idx, idx[j].key);
    var j' :| 0 <= j' < |idx| && idx[j'].key == idx[j].key && idx[j'].file == r.value;
    assert j' == j;
  }
}
