/** The catalogue scan in getOneDicom (main.go): each collection name that `iquest` prints is
    forwarded to the file-query workers, except that of the collections carrying a series id only
    the first per parent collection is forwarded. The stream of lines is a sequence and the
    forwarded lines are a growing sequence. */
module CatalogScan {
  import opened Text
  import opened Paths

  /** The key under which a series collection is remembered: its parent collection. */
  function SessionKey(line: string): string {
    Dir(line)
  }

  /** The keys recorded after the lines `ls` have been read. */
  function Keys(ls: seq<string>): set<string>
    decreases |ls|
  {
    if ls == [] then {}
    else
      var last := ls[|ls| - 1];
      Keys(ls[..|ls| - 1]) + (if HasSeriesId(last) then {SessionKey(last)} else {})
  }

  /** Whether `line` is forwarded after the lines `before` have been read. */
  predicate Forwarded(before: seq<string>, line: string) {
    !HasSeriesId(line) || SessionKey(line) !in Keys(before)
  }

  /** The lines forwarded for the input `ls`, in input order. */
  function Kept(ls: seq<string>): seq<string>
    decreases |ls|
  {
    if ls == [] then []
    else
      var before, last := ls[..|ls| - 1], ls[|ls| - 1];
      Kept(before) + (if Forwarded(before, last) then [last] else [])
  }

  /** The body of the scan loop for each line read from standard output. The map starts empty;
      a key that is absent reads as false, as a Go map does. */
  method DedupCollections(lines: seq<string>) returns (forwarded: seq<string>, collMap: map<string, bool>)
    ensures forwarded == Kept(lines)
    ensures collMap.Keys == Keys(lines)
    ensures forall k :: k in collMap ==> collMap[k]
  {
    forwarded, collMap := [], map[];
    var i := 0;
    while i < |lines|
      invariant i <= |lines|
      invariant forwarded == Kept(lines[..i])
      invariant collMap.Keys == Keys(lines[..i])
      invariant forall k :: k in collMap ==> collMap[k]
    {
      var line := lines[i];
      assert lines[..i + 1][..i] == lines[..i];
      if HasSeriesId(line) {
        var key := SessionKey(line);
        var visited := key in collMap && collMap[key];
        if !visited {
          collMap := collMap[key := true];
          forwarded := forwarded + [line];
        }
      } else {
        forwarded := forwarded + [line];
      }
      i := i + 1;
    }
    assert lines[..i] == lines;
  }

  // ---- Properties of the forwarded stream ----

  /** Reading one more line: a line without a series id is forwarded and leaves the keys as they
      were; a line with one is forwarded exactly when its key is new, and its key is recorded. */
  lemma Step(ls: seq<string>, line: string)
    ensures !HasSeriesId(line) ==> Kept(ls + [line]) == Kept(ls) + [line] && Keys(ls + [line]) == Keys(ls)
    ensures HasSeriesId(line) ==> Keys(ls + [line]) == Keys(ls) + {SessionKey(line)}
    ensures HasSeriesId(line) && SessionKey(line) !in Keys(ls) ==> Kept(ls + [line]) == Kept(ls) + [line]
    ensures HasSeriesId(line) && SessionKey(line) in Keys(ls) ==> Kept(ls + [line]) == Kept(ls)
  {
    assert (ls + [line])[..|ls|] == ls;
  }

  /** The forwarded lines are the input with some lines left out, in input order. */
  lemma {:induction false} KeptIsSubsequence(ls: seq<string>)
    ensures IsSubsequence(Kept(ls), ls)
    decreases |ls|
  {
    if ls == [] {
    } else {
      var before, last := ls[..|ls| - 1], ls[|ls| - 1];
      assert before + [last] == ls;
      KeptIsSubsequence(before);
      if Forwarded(before, last) {
        assert Kept(ls) == Kept(before) + [last];
        SubsequenceKeepLast(Kept(before), before, last);
      } else {
        assert Kept(ls) == Kept(before);
        SubsequenceSkipLast(Kept(before), before, last);
      }
    }
  }

  /** The keys are exactly the keys of the forwarded lines that carry a series id. */
  lemma {:induction false} KeysOfKept(ls: seq<string>)
    ensures forall j :: 0 <= j < |Kept(ls)| && HasSeriesId(Kept(ls)[j]) ==> SessionKey(Kept(ls)[j]) in Keys(ls)
    ensures forall k :: k in Keys(ls) ==>
      exists j :: 0 <= j < |Kept(ls)| && HasSeriesId(Kept(ls)[j]) && SessionKey(Kept(ls)[j]) == k
    decreases |ls|
  {
    if ls != [] {
      var before, last := ls[..|ls| - 1], ls[|ls| - 1];
      KeysOfKept(before);
      var kb, k := Kept(before), Kept(ls);
      assert k[..|kb|] == kb;
      forall k' | k' in Keys(ls)
        ensures exists j :: 0 <= j < |k| && HasSeriesId(k[j]) && SessionKey(k[j]) == k'
      {
        if k' in Keys(before) {
          var j :| 0 <= j < |kb| && HasSeriesId(kb[j]) && SessionKey(kb[j]) == k';
          assert k[j] == kb[j];
        } else {
          assert k[|kb|] == last;
        }
      }
    }
  }

  /** No two forwarded lines with a series id share a parent collection. */
  lemma {:induction false} KeptDistinctKeys(ls: seq<string>)
    ensures forall i, j :: 0 <= i < j < |Kept(ls)| && HasSeriesId(Kept(ls)[i]) && HasSeriesId(Kept(ls)[j]) ==>
      SessionKey(Kept(ls)[i]) != SessionKey(Kept(ls)[j])
    decreases |ls|
  {
    if ls != [] {
      var before, last := ls[..|ls| - 1], ls[|ls| - 1];
      KeptDistinctKeys(before);
      KeysOfKept(before);
      var kb, k := Kept(before), Kept(ls);
      assert k[..|kb|] == kb;
      forall i, j | 0 <= i < j < |k| && HasSeriesId(k[i]) && HasSeriesId(k[j])
        ensures SessionKey(k[i]) != SessionKey(k[j])
      {
        assert k[i] == kb[i];
        if j < |kb| {
          assert k[j] == kb[j];
        } else {
          assert k[j] == last;
        }
      }
    }
  }

  /** Forwarding is online: reading more lines only appends to what was already forwarded. */
  lemma {:induction false} KeptPrefix(ls: seq<string>, more: seq<string>)
    ensures |Kept(ls)| <= |Kept(ls + more)|
    ensures Kept(ls + more)[..|Kept(ls)|] == Kept(ls)
    decreases |more|
  {
    if more == [] {
      assert ls + more == ls;
    } else {
      var init := more[..|more| - 1];
      assert (ls + more)[..|ls + more| - 1] == ls + init;
      KeptPrefix(ls, init);
      var a, b := Kept(ls + init), Kept(ls + more);
      assert b[..|a|] == a;
      assert b[..|Kept(ls)|] == a[..|Kept(ls)|];
    }
  }

  /** The first line of each parent collection that carries a series id is the one forwarded:
      it follows exactly what was forwarded for the lines before it. */
  lemma FirstOfKeyForwarded(ls: seq<string>, i: nat)
    requires i < |ls| && HasSeriesId(ls[i])
    requires forall j :: 0 <= j < i && HasSeriesId(ls[j]) ==> SessionKey(ls[j]) != SessionKey(ls[i])
    ensures |Kept(ls[..i])| < |Kept(ls)|
    ensures Kept(ls)[|Kept(ls[..i])|] == ls[i]
  {
    var pre, upto, rest := ls[..i], ls[..i + 1], ls[i + 1..];
    FirstOfKeyIsNew(ls, i);
    Step(pre, ls[i]);
    assert upto == pre + [ls[i]];
    var ku := Kept(upto);
    assert ku == Kept(pre) + [ls[i]];
    assert upto + rest == ls;
    KeptPrefix(upto, rest);
    var k := Kept(ls);
    assert k[..|ku|] == ku;
    assert k[|Kept(pre)|] == ku[|Kept(pre)|];
  }

  lemma FirstOfKeyIsNew(ls: seq<string>, i: nat)
    requires i < |ls|
    requires forall j :: 0 <= j < i && HasSeriesId(ls[j]) ==> SessionKey(ls[j]) != SessionKey(ls[i])
    ensures SessionKey(ls[i]) !in Keys(ls[..i])
  {
    var pre := ls[..i];
    KeysOfLines(pre);
    forall j | 0 <= j < |pre| && HasSeriesId(pre[j]) ensures SessionKey(pre[j]) != SessionKey(ls[i]) {
      assert pre[j] == ls[j];
    }
  }

  /** A key is recorded exactly when some line read so far carries a series id under it. */
  lemma {:induction false} KeysOfLines(ls: seq<string>)
    ensures forall k :: k in Keys(ls) <==> exists j :: 0 <= j < |ls| && HasSeriesId(ls[j]) && SessionKey(ls[j]) == k
    decreases |ls|
  {
    if ls != [] {
      var before, last := ls[..|ls| - 1], ls[|ls| - 1];
      KeysOfLines(before);
      forall k | k in Keys(ls)
        ensures exists j :: 0 <= j < |ls| && HasSeriesId(ls[j]) && SessionKey(ls[j]) == k
      {
        if k in Keys(before) {
          var j :| 0 <= j < |before| && HasSeriesId(before[j]) && SessionKey(before[j]) == k;
          assert ls[j] == before[j];
        }
      }
      forall k | exists j :: 0 <= j < |ls| && HasSeriesId(ls[j]) && SessionKey(ls[j]) == k
        ensures k in Keys(ls)
      {
        var j :| 0 <= j < |ls| && HasSeriesId(ls[j]) && SessionKey(ls[j]) == k;
        if j < |before| {
          assert before[j] == ls[j];
        }
      }
    }
  }

  /** The lines without a series id of a sequence, in order. */
  function Plain(ls: seq<string>): (ps: seq<string>)
    ensures forall j :: 0 <= j < |ps| ==> !HasSeriesId(ps[j])
    decreases |ls|
  {
    if ls == [] then []
    else
      var last := ls[|ls| - 1];
      Plain(ls[..|ls| - 1]) + (if HasSeriesId(last) then [] else [last])
  }

  /** Every line without a series id is forwarded, and in input order. */
  lemma {:induction false} PlainLinesForwarded(ls: seq<string>)
    ensures Plain(Kept(ls)) == Plain(ls)
    decreases |ls|
  {
    if ls != [] {
      var before, last := ls[..|ls| - 1], ls[|ls| - 1];
      PlainLinesForwarded(before);
      var kb := Kept(before);
      if Forwarded(before, last) {
        assert Kept(ls) == kb + [last];
        assert (kb + [last])[..|kb|] == kb;
        assert Plain(kb + [last]) == Plain(kb) + Plain([last]) by {
          assert [last][..0] == [];
        }
      } else {
        assert Kept(ls) == kb;
        assert HasSeriesId(last);
      }
    }
  }
}
