/** The text budget of tcfactory/context.py: `_bounded` and `newest_unique_findings`. */
module ContextBudget {

  // ----- Cleaning --------------------------------------------------------------------------------------

  predicate IsSpace(c: char) {
    c == ' ' || '\t' <= c <= '\r' || '\U{001c}' <= c <= '\U{001f}'
  }

  function StripLeft(s: string): string {
    if s != [] && IsSpace(s[0]) then StripLeft(s[1..]) else s
  }

  function StripRight(s: string): string {
    if s != [] && IsSpace(s[|s| - 1]) then StripRight(s[..|s| - 1]) else s
  }

  /** `str.strip`. */
  function Strip(s: string): string {
    StripRight(StripLeft(s))
  }

  /** The ASCII characters that `str.strip` removes: space, tab, the line and page ends and the four separators. */
  lemma IsSpaceMeans(c: char)
    ensures IsSpace(c) <==> c as int == 32 || c as int in {9, 10, 11, 12, 13} || c as int in {28, 29, 30, 31}
  {
  }

  predicate AllSpace(s: string) {
    forall i :: 0 <= i < |s| ==> IsSpace(s[i])
  }

  lemma {:induction false} StripLeftMeans(s: string) returns (before: string)
    ensures s == before + StripLeft(s) && AllSpace(before)
    ensures StripLeft(s) != [] ==> !IsSpace(StripLeft(s)[0])
  {
    before := [];
    if s != [] && IsSpace(s[0]) {
      var rest := StripLeftMeans(s[1..]);
      before := [s[0]] + rest;
      assert s == [s[0]] + s[1..];
    }
  }

  lemma {:induction false} StripRightMeans(s: string) returns (after: string)
    ensures s == StripRight(s) + after && AllSpace(after)
    ensures StripRight(s) != [] ==> !IsSpace(StripRight(s)[|StripRight(s)| - 1])
  {
    after := [];
    if s != [] && IsSpace(s[|s| - 1]) {
      var rest := StripRightMeans(s[..|s| - 1]);
      after := rest + [s[|s| - 1]];
      assert s == s[..|s| - 1] + [s[|s| - 1]];
    }
  }

  /** Stripping removes white space at both ends, and all of it. */
  lemma {:induction false} StripMeans(s: string) returns (before: string, after: string)
    ensures s == before + Strip(s) + after && AllSpace(before) && AllSpace(after)
    ensures Strip(s) != [] ==> !IsSpace(Strip(s)[0]) && !IsSpace(Strip(s)[|Strip(s)| - 1])
  {
    before := StripLeftMeans(s);
    var middle := StripLeft(s);
    after := StripRightMeans(middle);
    assert Strip(s) == StripRight(middle);
    assert Strip(s) != [] ==> Strip(s)[0] == middle[0];
  }

  /** The stripped entries that are not blank, for any way to strip. */
  function CleanedWith(strip: string -> string, values: seq<string>): seq<string> {
    if values == [] then []
    else
      var clean := strip(values[0]);
      (if clean == [] then [] else [clean]) + CleanedWith(strip, values[1..])
  }

  function Cleaned(values: seq<string>): seq<string> {
    CleanedWith(Strip, values)
  }

  // ----- The budget ------------------------------------------------------------------------------------

  const MARK: string := "\U{2026}[truncated]"

  /** Characters kept before the mark: 20 are set aside for it, though it takes 12. */
  function Kept(remaining: int): nat {
    if remaining > 20 then remaining - 20 else 0
  }

  function Cut(value: string, remaining: int): string
    requires 0 < remaining
  {
    if |value| <= remaining then value else value[..Kept(remaining)] + MARK
  }

  function Total(entries: seq<string>): nat {
    if entries == [] then 0 else |entries[0]| + Total(entries[1..])
  }

  /** The entries that fit, one after the other, while budget remains. */
  function Fit(entries: seq<string>, remaining: int): seq<string>
    decreases |entries|
  {
    if entries == [] || remaining <= 0 then []
    else
      var cut := Cut(entries[0], remaining);
      [cut] + Fit(entries[1..], remaining - |cut|)
  }

  /** How many of them are truncated. */
  function Truncated(entries: seq<string>, remaining: int): nat
    decreases |entries|
  {
    if entries == [] || remaining <= 0 then 0
    else
      var cut := Cut(entries[0], remaining);
      (if |entries[0]| > remaining then 1 else 0) + Truncated(entries[1..], remaining - |cut|)
  }

  lemma {:induction false} FitIsBounded(entries: seq<string>, limit: int)
    ensures Total(Fit(entries, limit)) <= if limit > 0 then limit + 11 else 0
    decreases |entries|
  {
    if entries != [] && limit > 0 {
      var cut := Cut(entries[0], limit);
      assert |MARK| == 12;
      FitIsBounded(entries[1..], limit - |cut|);
      assert Fit(entries, limit)[1..] == Fit(entries[1..], limit - |cut|);
    }
  }

  /** At most two entries are truncated, and the second leaves nothing. */
  lemma {:induction false} AtMostTwoTruncated(entries: seq<string>, limit: int)
    ensures Truncated(entries, limit) <= if limit > 12 then 2 else 1
    decreases |entries|
  {
    if entries != [] && limit > 0 {
      assert |MARK| == 12;
      AtMostTwoTruncated(entries[1..], limit - |Cut(entries[0], limit)|);
    }
  }

  lemma {:induction false} TotalConcat(a: seq<string>, b: seq<string>)
    ensures Total(a + b) == Total(a) + Total(b)
    decreases |a|
  {
    if a == [] {
      assert a + b == b;
    } else {
      TotalConcat(a[1..], b);
      assert (a + b)[1..] == a[1..] + b;
    }
  }

  /** What fits is returned unchanged. */
  lemma {:induction false} FittingIsUnchanged(entries: seq<string>, limit: int)
    requires Total(entries) <= limit && forall i :: 0 <= i < |entries| ==> entries[i] != []
    ensures Fit(entries, limit) == entries && Truncated(entries, limit) == 0
    decreases |entries|
  {
    if entries != [] {
      FittingIsUnchanged(entries[1..], limit - |entries[0]|);
    }
  }

  /** Every result is an entry or a prefix of one followed by the mark, in the same order. */
  lemma {:induction false} FitIsPrefixwise(entries: seq<string>, limit: int, i: nat)
    requires i < |Fit(entries, limit)|
    ensures i < |entries|
    ensures var r := Fit(entries, limit)[i];
            r == entries[i] || exists k :: 0 <= k < |entries[i]| && r == entries[i][..k] + MARK
    decreases |entries|
  {
    var cut := Cut(entries[0], limit);
    if i > 0 {
      FitIsPrefixwise(entries[1..], limit - |cut|, i - 1);
    } else if |entries[0]| > limit {
      assert cut == entries[0][..Kept(limit)] + MARK;
    }
  }

  /** Entry by entry: each result has budget before it, and is its entry if that fits into what remains, else
      what remains less 20 of it and the mark; the results stop early only when the budget is spent. */
  lemma {:induction false} FitExactly(entries: seq<string>, limit: int)
    ensures |Fit(entries, limit)| <= |entries|
    ensures forall i :: 0 <= i < |Fit(entries, limit)| ==> FitsAt(entries, Fit(entries, limit), limit, i)
    ensures |Fit(entries, limit)| < |entries| ==> Total(Fit(entries, limit)) >= limit
    decreases |entries|
  {
    if entries != [] && limit > 0 {
      var cut, r := Cut(entries[0], limit), Fit(entries, limit);
      var rest := Fit(entries[1..], limit - |cut|);
      FitExactly(entries[1..], limit - |cut|);
      assert r == [cut] + rest && r[1..] == rest;
      forall i | 0 <= i < |r| ensures FitsAt(entries, r, limit, i) {
        if i > 0 {
          assert FitsAt(entries[1..], rest, limit - |cut|, i - 1);
          assert r[..i][1..] == rest[..i - 1];
        }
      }
    }
  }

  ghost predicate FitsAt(entries: seq<string>, result: seq<string>, limit: int, i: nat)
    requires i < |result| <= |entries|
  {
    var remaining := limit - Total(result[..i]);
    && remaining > 0
    && (|entries[i]| <= remaining ==> result[i] == entries[i])
    && (|entries[i]| > remaining > 20 ==> result[i] == entries[i][..remaining - 20] + "\U{2026}[truncated]")
    && (|entries[i]| > remaining && remaining <= 20 ==> result[i] == "\U{2026}[truncated]")
  }

  lemma TotalOne(s: string)
    ensures Total([s]) == |s|
  {
    assert Total([s][1..]) == 0;
  }

  /** The bound of limit + 11 is reached for every positive limit. */
  lemma BoundIsReached(limit: int)
    requires limit > 0
    ensures exists entries :: Total(Fit(entries, limit)) == limit + 11
  {
    var filler := seq(limit - 1, _ => 'x');
    var entries := if limit == 1 then ["xx"] else [filler, "xx"];
    assert |MARK| == 12;
    TotalOne(MARK);
    TotalOne(filler);
    if limit == 1 {
      assert Fit(entries, limit) == [MARK] by {
        assert entries[0][..0] + MARK == MARK;
      }
    } else {
      assert entries[1..] == ["xx"];
      assert Fit(["xx"], 1) == [MARK] by {
        assert "xx"[..0] + MARK == MARK;
      }
      assert Fit(entries, limit) == [filler] + [MARK];
      TotalConcat([filler], [MARK]);
    }
    assert Total(Fit(entries, limit)) == limit + 11;
  }

  lemma {:induction false} CleanedIsNonBlank(strip: string -> string, values: seq<string>, i: nat)
    requires i < |CleanedWith(strip, values)|
    ensures CleanedWith(strip, values)[i] != []
    decreases |values|
  {
    var n := if strip(values[0]) == [] then 0 else 1;
    if i >= n {
      CleanedIsNonBlank(strip, values[1..], i - n);
    }
  }

  lemma Associative(a: seq<string>, b: seq<string>, c: seq<string>)
    ensures a + b + c == a + (b + c)
  {
  }

  /** Cleaning goes entry by entry, in order. */
  lemma {:induction false} CleanedAppend(strip: string -> string, a: seq<string>, b: seq<string>)
    ensures CleanedWith(strip, a + b) == CleanedWith(strip, a) + CleanedWith(strip, b)
    decreases |a|
  {
    if a == [] {
      assert a + b == b;
    } else {
      var all, clean := a + b, strip(a[0]);
      assert all[0] == a[0] && all[1..] == a[1..] + b;
      CleanedAppend(strip, a[1..], b);
      Associative(if clean == [] then [] else [clean], CleanedWith(strip, a[1..]), CleanedWith(strip, b));
    }
  }

  /** Each entry is stripped, and kept unless it is blank. */
  lemma {:induction false} CleanedOne(strip: string -> string, v: string)
    ensures CleanedWith(strip, [v]) == if strip(v) == [] then [] else [strip(v)]
  {
    assert [v][1..] == [];
  }

  /** A blank entry is skipped. */
  lemma {:induction false} SkipBlank(strip: string -> string, values: seq<string>, i: nat)
    requires i < |values| && strip(values[i]) == []
    ensures CleanedWith(strip, values[i..]) == CleanedWith(strip, values[i + 1..])
  {
    assert values[i..][0] == values[i] && values[i..][1..] == values[i + 1..];
    assert [] + CleanedWith(strip, values[i + 1..]) == CleanedWith(strip, values[i + 1..]);
  }

  /** Any other is cut to what remains, while anything does. */
  lemma {:induction false} TakeEntry(strip: string -> string, values: seq<string>, i: nat, remaining: int)
    requires i < |values| && strip(values[i]) != []
    ensures Fit(CleanedWith(strip, values[i..]), remaining) ==
              if remaining <= 0 then []
              else var cut := Cut(strip(values[i]), remaining); [cut] + Fit(CleanedWith(strip, values[i + 1..]), remaining - |cut|)
  {
    assert values[i..][0] == values[i] && values[i..][1..] == values[i + 1..];
    var clean, rest := strip(values[i]), CleanedWith(strip, values[i + 1..]);
    assert CleanedWith(strip, values[i..]) == [clean] + rest && ([clean] + rest)[1..] == rest;
  }

  lemma Regroup(a: seq<string>, b: string, c: seq<string>)
    ensures a + ([b] + c) == a + [b] + c
  {
  }

  /** `_bounded`. */
  method Bounded(values: seq<string>, limit: int) returns (result: seq<string>)
    ensures result == Fit(Cleaned(values), limit)
    ensures Total(result) <= if limit > 0 then limit + 11 else 0
    ensures Total(Cleaned(values)) <= limit ==> result == Cleaned(values)
    ensures |result| <= |Cleaned(values)| && (|result| < |Cleaned(values)| ==> Total(result) >= limit)
    ensures forall i :: 0 <= i < |result| ==> FitsAt(Cleaned(values), result, limit, i)
  {
    FitExactly(Cleaned(values), limit);
    result := TakeWhileBudget(Strip, values, limit);
    FitIsBounded(Cleaned(values), limit);
    if Total(Cleaned(values)) <= limit {
      forall k | 0 <= k < |Cleaned(values)| ensures Cleaned(values)[k] != [] {
        CleanedIsNonBlank(Strip, values, k);
      }
      FittingIsUnchanged(Cleaned(values), limit);
    }
  }

  /** The loop of `_bounded`. */
  method TakeWhileBudget(strip: string -> string, values: seq<string>, limit: int) returns (result: seq<string>)
    ensures result == Fit(CleanedWith(strip, values), limit)
  {
    result := [];
    var used := 0;
    ghost var all := Fit(CleanedWith(strip, values), limit);
    assert values[0..] == values && [] + all == all;
    for i := 0 to |values|
      invariant all == result + Fit(CleanedWith(strip, values[i..]), limit - used)
    {
      var clean := strip(values[i]);
      if clean == [] {
        SkipBlank(strip, values, i);
        continue;
      }
      var remaining := limit - used;
      TakeEntry(strip, values, i, remaining);
      if remaining <= 0 {
        return result;
      }
      if |clean| > remaining {
        clean := clean[..Kept(remaining)] + MARK;
      }
      Regroup(result, clean, Fit(CleanedWith(strip, values[i + 1..]), remaining - |clean|));
      result := result + [clean];
      used := used + |clean|;
    }
  }

  // ----- Findings -----------------------------------------------------------------------------------------

  /** Entry `k` is the newest non-blank occurrence of its text. */
  predicate IsNewest(values: seq<string>, k: nat)
    requires k < |values|
  {
    Strip(values[k]) != [] && forall j :: k < j < |values| ==> Strip(values[j]) != Strip(values[k])
  }

  /** The findings from position `k` on, with the positions they come from. */
  ghost predicate Collected(values: seq<string>, k: nat, result: seq<string>, origin: seq<nat>) {
    && |origin| == |result|
    && (forall i :: 0 <= i < |origin| ==>
          k <= origin[i] < |values| && IsNewest(values, origin[i]) && result[i] == Strip(values[origin[i]]))
    && (forall i, j :: 0 <= i < j < |origin| ==> origin[i] > origin[j])
    && (forall j :: k <= j < |values| && Strip(values[j]) != [] ==> Strip(values[j]) in result)
    && (forall i, j :: 0 <= i < j < |result| ==> result[i] != result[j])
  }

  lemma {:induction false} CollectMore(values: seq<string>, k: nat, result: seq<string>, origin: seq<nat>)
    requires k < |values| && Collected(values, k + 1, result, origin)
    requires Strip(values[k]) != [] && Strip(values[k]) !in result
    ensures Collected(values, k, result + [Strip(values[k])], origin + [k])
  {
    assert IsNewest(values, k);
  }

  lemma {:induction false} CollectSkip(values: seq<string>, k: nat, result: seq<string>, origin: seq<nat>)
    requires k < |values| && Collected(values, k + 1, result, origin)
    requires Strip(values[k]) == [] || Strip(values[k]) in result
    ensures Collected(values, k, result, origin)
  {
  }

  /** `newest_unique_findings`: each distinct finding once, the most recently recorded first. */
  method NewestUniqueFindings(values: seq<string>) returns (result: seq<string>, ghost origin: seq<nat>)
    ensures |origin| == |result|
    ensures forall i :: 0 <= i < |origin| ==> origin[i] < |values| && IsNewest(values, origin[i]) && result[i] == Strip(values[origin[i]])
    ensures forall i, j :: 0 <= i < j < |origin| ==> origin[i] > origin[j]
    ensures forall k :: 0 <= k < |values| && IsNewest(values, k) ==> Strip(values[k]) in result
    ensures forall i, j :: 0 <= i < j < |result| ==> result[i] != result[j]
  {
    result, origin := [], [];
    var seen: set<string> := {};
    var k := |values|;
    while k > 0
      invariant 0 <= k <= |values| && Collected(values, k, result, origin)
      invariant forall s :: s in seen <==> s in result
    {
      k := k - 1;
      var clean := Strip(values[k]);
      if clean != [] && clean !in seen {
        CollectMore(values, k, result, origin);
        seen := seen + {clean};
        result := result + [clean];
        origin := origin + [k];
      } else {
        CollectSkip(values, k, result, origin);
      }
    }
  }
}
