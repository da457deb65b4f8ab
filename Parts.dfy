/**
 * Splitting a URL path or a route pattern into its parts (`getParts`), and
 * the static/dynamic reading of one part.
 */
module Parts {

  /** Splits `s` at every '/', as `String.prototype.split("/")` does:
      empty pieces are kept, so n separators give n + 1 pieces. */
  function Split(s: string): (pieces: seq<string>)
    ensures |pieces| == Separators(s) + 1
    ensures forall i :: 0 <= i < |pieces| ==> '/' !in pieces[i]
  {
    if s == [] then [""]
    else
      var rest := Split(s[1..]);
      if s[0] == '/' then [""] + rest
      else [[s[0]] + rest[0]] + rest[1..]
  }

  /** The number of '/' characters in `s`. */
  function Separators(s: string): nat
  {
    if s == [] then 0 else (if s[0] == '/' then 1 else 0) + Separators(s[1..])
  }

  /** Glues pieces back together with '/' between neighbours: the inverse of `Split`. */
  function Join(pieces: seq<string>): string
    requires |pieces| >= 1
  {
    if |pieces| == 1 then pieces[0] else pieces[0] + "/" + Join(pieces[1..])
  }

  /** `filter(part => part)`: keeps the non-empty pieces, in order. */
  function DropEmpty(pieces: seq<string>): (kept: seq<string>)
    ensures |kept| <= |pieces|
    ensures forall i :: 0 <= i < |kept| ==> kept[i] != ""
    ensures forall s :: s in kept ==> s in pieces
  {
    if pieces == [] then []
    else if pieces[0] == "" then DropEmpty(pieces[1..])
    else [pieces[0]] + DropEmpty(pieces[1..])
  }

  /** Nothing non-empty is lost: every non-empty piece is kept as often as it occurs. */
  lemma {:induction false} DropEmptyKeeps(pieces: seq<string>)
    ensures forall s :: s != "" ==> multiset(DropEmpty(pieces))[s] == multiset(pieces)[s]
  {
    if pieces != [] {
      var tail := pieces[1..];
      DropEmptyKeeps(tail);
      assert pieces == [pieces[0]] + tail;
      assert multiset(pieces) == multiset([pieces[0]]) + multiset(tail);
      if pieces[0] != "" {
        assert multiset(DropEmpty(pieces)) == multiset([pieces[0]]) + multiset(DropEmpty(tail));
      }
    }
  }

  /** A single piece is kept exactly when it is non-empty. With `DropEmptyAppend`
      and `DropEmpty([]) == []` this pins the filter down completely. */
  lemma DropEmptySingle(piece: string)
    ensures DropEmpty([piece]) == (if piece == "" then [] else [piece])
  {
    assert [piece][1..] == [];
  }

  /** The filter works piece by piece, left to right: filtering a concatenation
      is concatenating the filtered halves, so the kept pieces stay in input order. */
  lemma {:induction false} DropEmptyAppend(a: seq<string>, b: seq<string>)
    ensures DropEmpty(a + b) == DropEmpty(a) + DropEmpty(b)
  {
    if a != [] {
      assert (a + b)[1..] == a[1..] + b;
      DropEmptyAppend(a[1..], b);
    } else {
      assert a + b == b;
    }
  }

  /** `getParts`: the non-empty '/'-separated parts of a path. */
  function GetParts(url: string): (parts: seq<string>)
    ensures forall i :: 0 <= i < |parts| ==> parts[i] != "" && '/' !in parts[i]
  {
    var pieces := Split(url);
    assert forall i :: 0 <= i < |DropEmpty(pieces)| ==> DropEmpty(pieces)[i] in pieces;
    DropEmpty(pieces)
  }

  /** A path written with one leading '/' before each part. */
  function JoinPath(parts: seq<string>): string
  {
    if parts == [] then "" else "/" + parts[0] + JoinPath(parts[1..])
  }

  /** All characters of `s` except the separators, in order. */
  function Unslashed(s: string): string
  {
    if s == [] then [] else (if s[0] == '/' then [] else [s[0]]) + Unslashed(s[1..])
  }

  /** The concatenation of a sequence of strings. */
  function Concat(pieces: seq<string>): string
  {
    if pieces == [] then [] else pieces[0] + Concat(pieces[1..])
  }

  /** Splitting and joining are inverse: no character is lost or invented. */
  lemma {:induction false} JoinSplit(s: string)
    ensures Join(Split(s)) == s
  {
    if s != [] {
      JoinSplit(s[1..]);
      var rest := Split(s[1..]);
      if s[0] == '/' {
        assert ([""] + rest)[1..] == rest;
      } else if |rest| > 1 {
        assert ([[s[0]] + rest[0]] + rest[1..])[1..] == rest[1..];
        assert Join(rest) == rest[0] + "/" + Join(rest[1..]);
      }
    }
  }

  /** A path has no parts exactly when it consists of separators only
      (in particular "" and "/"). */
  lemma {:induction false} GetPartsEmpty(s: string)
    ensures GetParts(s) == [] <==> forall i :: 0 <= i < |s| ==> s[i] == '/'
  {
    if s != [] {
      GetPartsEmpty(s[1..]);
      var rest := Split(s[1..]);
      if s[0] == '/' {
        assert Split(s) == [""] + rest;
        assert ([""] + rest)[1..] == rest;
        assert GetParts(s) == GetParts(s[1..]);
        assert forall i :: 1 <= i < |s| ==> s[i] == s[1..][i - 1];
      } else {
        assert Split(s)[0] != "";
        assert GetParts(s) != [];
      }
    }
  }

  lemma {:induction false} ConcatDropEmpty(pieces: seq<string>)
    ensures Concat(DropEmpty(pieces)) == Concat(pieces)
  {
    if pieces != [] {
      ConcatDropEmpty(pieces[1..]);
      if pieces[0] != "" {
        assert ([pieces[0]] + DropEmpty(pieces[1..]))[1..] == DropEmpty(pieces[1..]);
      }
    }
  }

  lemma {:induction false} ConcatSplit(s: string)
    ensures Concat(Split(s)) == Unslashed(s)
  {
    if s != [] {
      ConcatSplit(s[1..]);
      var rest := Split(s[1..]);
      if s[0] == '/' {
        assert ([""] + rest)[1..] == rest;
      } else {
        var pieces := [[s[0]] + rest[0]] + rest[1..];
        assert pieces[1..] == rest[1..];
        assert Concat(rest) == rest[0] + Concat(rest[1..]);
        assert Concat(pieces) == [s[0]] + rest[0] + Concat(rest[1..]);
      }
    }
  }

  /** Dropping empty pieces loses no character: the parts, glued together,
      are the path with its separators removed. */
  lemma {:induction false} GetPartsKeepsText(s: string)
    ensures Concat(GetParts(s)) == Unslashed(s)
  {
    ConcatDropEmpty(Split(s));
    ConcatSplit(s);
  }

  lemma {:induction false} SplitPrefix(p: string, y: string)
    requires '/' !in p
    ensures Split(p + y) == [p + Split(y)[0]] + Split(y)[1..]
  {
    if p != [] {
      assert (p + y)[1..] == p[1..] + y;
      SplitPrefix(p[1..], y);
      assert [p[0]] + (p[1..] + Split(y)[0]) == p + Split(y)[0];
    } else {
      var pieces := Split(y);
      assert p + y == y && p + pieces[0] == pieces[0];
      assert [pieces[0]] + pieces[1..] == pieces;
    }
  }

  lemma {:induction false} SplitJoinPath(parts: seq<string>)
    requires forall i :: 0 <= i < |parts| ==> '/' !in parts[i]
    ensures Split(JoinPath(parts)) == [""] + parts
  {
    if parts != [] {
      var tail := JoinPath(parts[1..]);
      SplitJoinPath(parts[1..]);
      assert JoinPath(parts) == "/" + (parts[0] + tail);
      assert ("/" + (parts[0] + tail))[1..] == parts[0] + tail;
      SplitPrefix(parts[0], tail);
      assert Split(tail)[0] == "" && Split(tail)[1..] == parts[1..];
      assert parts[0] + "" == parts[0];
      assert Split(parts[0] + tail) == [parts[0]] + parts[1..];
      assert [parts[0]] + parts[1..] == parts;
    }
  }

  lemma {:induction false} DropEmptyKeepsNonEmpty(parts: seq<string>)
    requires forall i :: 0 <= i < |parts| ==> parts[i] != ""
    ensures DropEmpty(parts) == parts
  {
    if parts != [] {
      DropEmptyKeepsNonEmpty(parts[1..]);
      assert [parts[0]] + parts[1..] == parts;
    }
  }

  /** Round trip: writing non-empty, separator-free parts as a path and
      reading them back with `GetParts` gives the same parts. */
  lemma GetPartsJoinPath(parts: seq<string>)
    requires forall i :: 0 <= i < |parts| ==> parts[i] != "" && '/' !in parts[i]
    ensures GetParts(JoinPath(parts)) == parts
  {
    SplitJoinPath(parts);
    DropEmptyKeepsNonEmpty(parts);
    assert ([""] + parts)[1..] == parts;
  }

  /** One part of a pattern: a literal, or (when it starts with ':') a named parameter. */
  datatype Segment = Static(text: string) | Dynamic(name: string)

  /** `part.startsWith(":")` decides the kind; `part.substring(1)` is the parameter name. */
  function Classify(part: string): (seg: Segment)
    ensures Text(seg) == part
  {
    if |part| > 0 && part[0] == ':' then Dynamic(part[1..]) else Static(part)
  }

  predicate IsDynamic(part: string)
  {
    Classify(part).Dynamic?
  }

  /** The text a segment is written as. */
  function Text(seg: Segment): string
  {
    match seg
    case Static(text) => text
    case Dynamic(name) => ":" + name
  }

  /** Classification forgets nothing: the part can be recovered from its segment,
      so two parts with the same segment are the same part. */
  lemma ClassifyText(part: string, other: string)
    ensures Text(Classify(part)) == part
    ensures Classify(part) == Classify(other) ==> part == other
  {
  }
}
