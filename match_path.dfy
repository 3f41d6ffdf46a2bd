/**
  The acceptance callback handed to the alias matcher. The matcher itself is not modelled:
  the candidates it offers the callback are given, in the order it offers them.
 */
module MatchPath {
  import opened Wrappers
  import opened Text
  import opened Selection

  const VueExtension: string := ".vue"

  /** The callback accepts a candidate that ends in `.vue` and exists under the workspace root. */
  predicate Accepts(root: string, candidate: string, fileExists: string -> bool)
    ensures Accepts(root, candidate, fileExists) ==> |candidate| >= |VueExtension| && candidate != ""
  {
    EndsWith(candidate, VueExtension) && fileExists(root + candidate)
  }

  /**
    What `exitPath` holds once the matcher is done: the last accepted candidate, or "".
    A non-empty result is an offered `.vue` candidate that exists under the root, with no
    accepted candidate after it, and the result is empty exactly when no offered candidate
    is accepted.
   */
  function AcceptedPath(root: string, candidates: seq<string>, fileExists: string -> bool): (r: string)
    ensures r != "" ==> r in candidates && Accepts(root, r, fileExists)
    ensures r != "" ==>
      exists i :: 0 <= i < |candidates| && candidates[i] == r &&
        forall j :: i < j < |candidates| ==> !Accepts(root, candidates[j], fileExists)
    ensures r == "" <==> forall d :: d in candidates ==> !Accepts(root, d, fileExists)
  {
    match LastWhere(candidates, d => Accepts(root, d, fileExists))
    case Some(i) =>
      assert candidates[i] in candidates;
      candidates[i]
    case None =>
      assert forall d :: d in candidates ==> !Accepts(root, d, fileExists) by {
        forall d | d in candidates ensures !Accepts(root, d, fileExists) {
          var j :| 0 <= j < |candidates| && candidates[j] == d;
        }
      }
      ""
  }

  /**
    One call of the callback. A candidate not ending in `.vue` is refused before the file
    system is consulted; `probed` reports whether the existence check ran.
   */
  method Callback(root: string, candidate: string, fileExists: string -> bool)
    returns (accepted: bool, probed: bool)
    ensures probed <==> EndsWith(candidate, VueExtension)
    ensures accepted <==> Accepts(root, candidate, fileExists)
  {
    if !EndsWith(candidate, VueExtension) {
      return false, false;
    }
    var isExit := fileExists(root + candidate);
    return isExit, true;
  }

  /** The matcher offers each candidate to the callback; an accepted one overwrites `exitPath`. */
  method RunMatchPath(root: string, candidates: seq<string>, fileExists: string -> bool)
    returns (exitPath: string)
    ensures exitPath == AcceptedPath(root, candidates, fileExists)
  {
    exitPath := "";
    var k := 0;
    while k < |candidates|
      invariant 0 <= k <= |candidates|
      invariant exitPath == AcceptedPath(root, candidates[..k], fileExists)
    {
      var d := candidates[k];
      assert candidates[..k + 1] == candidates[..k] + [d];
      LastWhereAppend(candidates[..k], [d], c => Accepts(root, c, fileExists));
      var accepted, _ := Callback(root, d, fileExists);
      if accepted {
        exitPath := d;
      }
      k := k + 1;
    }
    assert candidates[..k] == candidates;
  }

  /** Candidates that are not `.vue` files, offered anywhere, never change the result. */
  lemma NonVueCandidateIgnored(root: string, before: seq<string>, d: string, after: seq<string>, fileExists: string -> bool)
    requires !EndsWith(d, VueExtension)
    ensures AcceptedPath(root, before + [d] + after, fileExists) == AcceptedPath(root, before + after, fileExists)
  {
    LastWhereSkip(before, d, after, c => Accepts(root, c, fileExists));
  }
}
