/** Substring search and ASCII case folding. */
module Text {

  function Lower(s: string): string {
    seq(|s|, i requires 0 <= i < |s| => if 'A' <= s[i] <= 'Z' then (s[i] as int + 32) as char else s[i])
  }

  /** Every upper-case letter becomes its lower-case one, 32 further on, and nothing else changes. */
  lemma LowerMeans(s: string)
    ensures |Lower(s)| == |s|
    ensures forall i :: 0 <= i < |s| ==> !('A' <= Lower(s)[i] <= 'Z')
    ensures forall i :: 0 <= i < |s| && !('A' <= s[i] <= 'Z') ==> Lower(s)[i] == s[i]
    ensures forall i :: 0 <= i < |s| && 'A' <= s[i] <= 'Z' ==>
              'a' <= Lower(s)[i] <= 'z' && Lower(s)[i] as int - 'a' as int == s[i] as int - 'A' as int
  {
  }

  predicate OccursAt(s: string, marker: string, i: nat) {
    i + |marker| <= |s| && s[i..i + |marker|] == marker
  }

  predicate Contains(s: string, marker: string) {
    exists i :: 0 <= i <= |s| && OccursAt(s, marker, i)
  }

  /** The marker occurs exactly if the text is something, the marker and something. */
  lemma ContainsExactly(s: string, marker: string)
    ensures Contains(s, marker) <==> exists before: string, after: string :: s == before + marker + after
  {
    if Contains(s, marker) {
      var i :| 0 <= i <= |s| && OccursAt(s, marker, i);
      assert s == s[..i] + marker + s[i + |marker|..];
    }
    if exists before: string, after: string :: s == before + marker + after {
      var before: string, after: string :| s == before + marker + after;
      assert OccursAt(s, marker, |before|);
    }
  }

  predicate ContainsAny(s: string, markers: seq<string>) {
    exists i :: 0 <= i < |markers| && Contains(s, markers[i])
  }
}
