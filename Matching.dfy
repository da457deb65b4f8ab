/**
 * Testing a concrete pathname against a route pattern (`matches`) and
 * extracting its parameters.
 */
module Matching {
  import opened Wrappers
  import opened Parts

  /** The outcome of one match attempt. */
  datatype Match = NoMatch | Match(params: map<string, string>)

  /** Every static pattern part equals the location part at its index. */
  ghost predicate StaticsAgree(pattern: seq<string>, location: seq<string>, n: int)
    requires |pattern| <= |location|
  {
    forall i :: 0 <= i < n && i < |pattern| && !IsDynamic(pattern[i]) ==> pattern[i] == location[i]
  }

  /** `tuples.filter(static).find(t => t[0] != t[1])`: the index of the first
      static pattern part that differs from the location part beside it. */
  function FindMismatch(pattern: seq<string>, location: seq<string>): (r: Option<nat>)
    requires |pattern| <= |location|
    ensures r.None? <==> StaticsAgree(pattern, location, |pattern|)
    ensures r.Some? ==> && r.value < |pattern|
                        && !IsDynamic(pattern[r.value])
                        && pattern[r.value] != location[r.value]
                        && StaticsAgree(pattern, location, r.value)
  {
    if pattern == [] then None
    else if !IsDynamic(pattern[0]) && pattern[0] != location[0] then Some(0)
    else
      var later := FindMismatch(pattern[1..], location[1..]);
      assert forall i :: 0 < i < |pattern| ==> pattern[i] == pattern[1..][i - 1] && location[i] == location[1..][i - 1];
      match later
      case None => None
      case Some(i) => Some(i + 1)
  }

  /** The `reduce` over the dynamic parts: each one binds its name (the part
      without ':') to the location part beside it, overwriting earlier bindings. */
  function Bind(pattern: seq<string>, location: seq<string>, acc: map<string, string>): (params: map<string, string>)
    requires |pattern| <= |location|
    ensures acc.Keys <= params.Keys
    ensures forall k :: k in params && k !in acc ==> k in ParamNames(pattern)
  {
    if pattern == [] then acc
    else
      var next := match Classify(pattern[0])
                  case Dynamic(name) => acc[name := location[0]]
                  case Static(_) => acc;
      Bind(pattern[1..], location[1..], next)
  }

  /** The names of the dynamic parts of a pattern. */
  ghost function ParamNames(pattern: seq<string>): set<string>
  {
    set i | 0 <= i < |pattern| && IsDynamic(pattern[i]) :: Classify(pattern[i]).name
  }

  /** Index `i` holds a dynamic part and no later part carries the same name
      (equivalently the same text, since `Classify` is injective). */
  ghost predicate LastBinding(pattern: seq<string>, i: int)
  {
    && 0 <= i < |pattern| && IsDynamic(pattern[i])
    && forall j :: i < j < |pattern| ==> pattern[j] != pattern[i]
  }

  lemma ParamNamesTail(pattern: seq<string>)
    requires pattern != []
    ensures ParamNames(pattern) ==
      (if IsDynamic(pattern[0]) then {Classify(pattern[0]).name} else {}) + ParamNames(pattern[1..])
  {
  }

  /** The fold's meaning: its keys are the accumulator's plus one per dynamic
      part; a name takes the location part at its last dynamic occurrence;
      keys the pattern does not name keep their old value. */
  lemma {:induction false} BindMeaning(pattern: seq<string>, location: seq<string>, acc: map<string, string>)
    requires |pattern| <= |location|
    ensures Bind(pattern, location, acc).Keys == acc.Keys + ParamNames(pattern)
    ensures forall i :: LastBinding(pattern, i) ==>
      Bind(pattern, location, acc)[Classify(pattern[i]).name] == location[i]
    ensures forall k :: k in acc && k !in ParamNames(pattern) ==> Bind(pattern, location, acc)[k] == acc[k]
  {
    if pattern != [] {
      var tail, rest := pattern[1..], location[1..];
      var next := match Classify(pattern[0])
                  case Dynamic(name) => acc[name := location[0]]
                  case Static(_) => acc;
      var result := Bind(pattern, location, acc);
      assert result == Bind(tail, rest, next);
      BindMeaning(tail, rest, next);
      ParamNamesTail(pattern);
      forall i | LastBinding(pattern, i)
        ensures result[Classify(pattern[i]).name] == location[i]
      {
        if i == 0 {
          var name := Classify(pattern[0]).name;
          forall j | 0 <= j < |tail| && IsDynamic(tail[j])
            ensures Classify(tail[j]).name != name
          {
            assert pattern[j + 1] == tail[j];
            ClassifyText(tail[j], pattern[0]);
          }
          assert name !in ParamNames(tail);
        } else {
          assert tail[i - 1] == pattern[i] && rest[i - 1] == location[i];
          assert LastBinding(tail, i - 1);
        }
      }
    }
  }

  /** `matches(pathname, pattern)`. */
  function Matches(pathname: string, pattern: string): (m: Match)
    ensures m.Match? ==> |GetParts(pattern)| <= |GetParts(pathname)|
  {
    var pathnameParts := GetParts(pathname);
    var patternParts := GetParts(pattern);
    if |patternParts| > |pathnameParts| then NoMatch
    else if FindMismatch(patternParts, pathnameParts).Some? then NoMatch
    else Match(Bind(patternParts, pathnameParts, map[]))
  }

  /** A match succeeds exactly when the pattern has no more parts than the
      pathname and every static pattern part equals the pathname part at its
      index (later pathname parts are ignored). The parameter map then has one
      key per dynamic part, the part without its ':', bound to the pathname
      part at the last index carrying that name. */
  lemma MatchesMeaning(pathname: string, pattern: string)
    ensures var location, pat := GetParts(pathname), GetParts(pattern);
      && (|pat| > |location| ==> Matches(pathname, pattern) == NoMatch)
      && (Matches(pathname, pattern).Match? <==>
            |pat| <= |location| && StaticsAgree(pat, location, |pat|))
      && (Matches(pathname, pattern).Match? ==>
            && Matches(pathname, pattern).params.Keys == ParamNames(pat)
            && forall i :: LastBinding(pat, i) ==>
                 Matches(pathname, pattern).params[Classify(pat[i]).name] == location[i])
  {
    var location, pat := GetParts(pathname), GetParts(pattern);
    if |pat| <= |location| {
      BindMeaning(pat, location, map[]);
    }
  }

  lemma {:induction false} FindMismatchAndBindPrefix(pattern: seq<string>, location: seq<string>, other: seq<string>, acc: map<string, string>)
    requires |pattern| <= |location| && |pattern| <= |other|
    requires location[..|pattern|] == other[..|pattern|]
    ensures FindMismatch(pattern, location) == FindMismatch(pattern, other)
    ensures Bind(pattern, location, acc) == Bind(pattern, other, acc)
  {
    if pattern != [] {
      assert location[0] == location[..|pattern|][0] == other[0];
      var n := |pattern| - 1;
      assert location[1..][..n] == location[..|pattern|][1..];
      assert other[1..][..n] == other[..|pattern|][1..];
      var next := match Classify(pattern[0])
                  case Dynamic(name) => acc[name := location[0]]
                  case Static(_) => acc;
      FindMismatchAndBindPrefix(pattern[1..], location[1..], other[1..], next);
    }
  }

  /** Pathname parts beyond the pattern's length play no part: two pathnames
      that agree on the first as many parts as the pattern has get the same result. */
  lemma MatchesIgnoresTail(pathname: string, other: string, pattern: string)
    requires var n := |GetParts(pattern)|;
      && n <= |GetParts(pathname)| && n <= |GetParts(other)|
      && GetParts(pathname)[..n] == GetParts(other)[..n]
    ensures Matches(pathname, pattern) == Matches(other, pattern)
  {
    FindMismatchAndBindPrefix(GetParts(pattern), GetParts(pathname), GetParts(other), map[]);
  }

  /** A pattern made of separators only (such as "" or "/") has no parts, so it
      matches every pathname, with no parameters. */
  lemma EmptyPatternMatchesAll(pathname: string, pattern: string)
    requires forall i :: 0 <= i < |pattern| ==> pattern[i] == '/'
    ensures Matches(pathname, pattern) == Match(map[])
  {
    GetPartsEmpty(pattern);
  }
}
