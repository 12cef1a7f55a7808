/**
 * The browser extensions the search works over: which of them become
 * candidates at start, and how the popup colours each candidate's row.
 */
module Extensions {
  import opened Bisection

  type ExtId = string

  /** The fields of a chrome.management extension record that the search reads. */
  datatype Extension = Extension(id: ExtId, name: string, enabled: bool, mayDisable: bool)

  /** A candidate is switched on, may be switched off, and is not the bisecting extension itself. */
  predicate Eligible(e: Extension, selfId: ExtId)
  {
    e.enabled && e.mayDisable && e.id != selfId
  }

  /** The candidate list fixed at start: the eligible extensions, in the browser's order. */
  function Candidates(all: seq<Extension>, selfId: ExtId): (r: seq<Extension>)
    ensures |r| <= |all|
    ensures forall e :: e in r <==> e in all && Eligible(e, selfId)
  {
    if all == [] then []
    else if Eligible(all[0], selfId) then [all[0]] + Candidates(all[1..], selfId)
    else Candidates(all[1..], selfId)
  }

  /** Filtering distributes over concatenation, so the browser's order is kept. */
  lemma {:induction false} CandidatesAppend(a: seq<Extension>, b: seq<Extension>, selfId: ExtId)
    ensures Candidates(a + b, selfId) == Candidates(a, selfId) + Candidates(b, selfId)
  {
    if a == [] {
      assert a + b == b;
    } else {
      assert (a + b)[0] == a[0];
      assert (a + b)[1..] == a[1..] + b;
      CandidatesAppend(a[1..], b, selfId);
    }
  }

  predicate DistinctIds(s: seq<Extension>)
  {
    forall i, j :: 0 <= i < j < |s| ==> s[i].id != s[j].id
  }

  /** Extension ids are unique in the browser, and so they stay unique among the candidates. */
  lemma {:induction false} CandidatesDistinct(all: seq<Extension>, selfId: ExtId)
    requires DistinctIds(all)
    ensures DistinctIds(Candidates(all, selfId))
  {
    if all != [] {
      var tail := all[1..];
      assert DistinctIds(tail) by {
        forall i, j | 0 <= i < j < |tail| ensures tail[i].id != tail[j].id {
          assert tail[i] == all[i + 1] && tail[j] == all[j + 1];
        }
      }
      CandidatesDistinct(tail, selfId);
      var rest := Candidates(tail, selfId);
      if Eligible(all[0], selfId) {
        forall k | 0 <= k < |rest| ensures all[0].id != rest[k].id {
          assert rest[k] in tail;
          var m :| 0 <= m < |tail| && tail[m] == rest[k];
          assert tail[m] == all[m + 1];
        }
        var r := [all[0]] + rest;
        forall i, j | 0 <= i < j < |r| ensures r[i].id != r[j].id {
          if i == 0 {
            assert r[j] == rest[j - 1];
          } else {
            assert r[i] == rest[i - 1] && r[j] == rest[j - 1];
          }
        }
      }
    }
  }

  datatype Colour = LightCoral | LightGreen | Transparent

  /** The background of candidate i's row in the popup's list. */
  function ColourOf(i: int, left: int, mid: int, right: int, broken: int): Colour
  {
    if i == broken || left <= i < mid then LightCoral
    else if InEnabledHalf(mid, right, i) then LightGreen
    else Transparent
  }

  /** One row of the popup's list: a name, a read-only checkbox and a colour. */
  datatype ListItem = ListItem(name: string, checked: bool, colour: Colour)

  /** During a round the disabled half is coral, the enabled half green and the rest plain. */
  lemma ColourDuringRound(i: int, left: int, mid: int, right: int)
    requires 0 <= i && left <= mid <= right
    ensures ColourOf(i, left, mid, right, -1) == LightCoral <==> left <= i < mid
    ensures ColourOf(i, left, mid, right, -1) == LightGreen <==> mid <= i < right
    ensures ColourOf(i, left, mid, right, -1) == Transparent <==> !(left <= i < right)
  {
  }

  /** Once the culprit is found only its row is coloured, and coral. */
  lemma ColourWhenFound(i: int, broken: int)
    requires 0 <= i && 0 <= broken
    ensures ColourOf(i, broken, Mid(broken, broken + 1), broken + 1, broken)
      == if i == broken then LightCoral else Transparent
  {
  }
}
