/**
 * The cookie header parse done by the BiliChat constructor: the header is split on
 * every "; ", each piece is split at its first "=", and the pairs are collected into a
 * dictionary in order, so a later duplicate key overwrites an earlier one. A piece
 * without "=" makes the dictionary constructor raise ValueError.
 */
module Cookies {
  import opened Wrappers

  const Separator: string := "; "

  /** True when `sep` occurs in `s` starting at position `i`. */
  predicate OccursAt(s: string, sep: string, i: nat)
  {
    i + |sep| <= |s| && s[i..i + |sep|] == sep
  }

  /** True when `sep` occurs nowhere in `s`. */
  predicate Avoids(s: string, sep: string)
  {
    forall i: nat :: i < |s| ==> !OccursAt(s, sep, i)
  }

  /**
   * str.split with an explicit, non-empty separator: scan from the left and cut at
   * each occurrence, never overlapping. Always at least one piece ("" gives [""]).
   */
  function Split(s: string, sep: string): (r: seq<string>)
    requires |sep| > 0
    ensures |r| >= 1
    decreases |s|
  {
    if |s| < |sep| then [s]
    else if s[..|sep|] == sep then [""] + Split(s[|sep|..], sep)
    else
      var rest := Split(s[1..], sep);
      [[s[0]] + rest[0]] + rest[1..]
  }

  /** sep.join(pieces). */
  function Join(pieces: seq<string>, sep: string): string
    requires |pieces| >= 1
  {
    if |pieces| == 1 then pieces[0] else pieces[0] + sep + Join(pieces[1..], sep)
  }

  /** Joining the pieces back with the separator gives the original header. */
  lemma {:induction false} JoinSplit(s: string, sep: string)
    requires |sep| > 0
    ensures Join(Split(s, sep), sep) == s
    decreases |s|
  {
    if |s| < |sep| {
    } else if s[..|sep|] == sep {
      JoinSplit(s[|sep|..], sep);
      var rest := Split(s[|sep|..], sep);
      assert Split(s, sep) == [""] + rest;
      assert (["" ] + rest)[1..] == rest;
      assert s == s[..|sep|] + s[|sep|..];
    } else {
      JoinSplit(s[1..], sep);
      var rest := Split(s[1..], sep);
      var r := [[s[0]] + rest[0]] + rest[1..];
      assert Split(s, sep) == r;
      if |rest| == 1 {
        assert Join(r, sep) == [s[0]] + rest[0];
      } else {
        assert r[1..] == rest[1..];
        assert Join(r, sep) == [s[0]] + rest[0] + sep + Join(rest[1..], sep);
        assert Join(rest, sep) == rest[0] + sep + Join(rest[1..], sep);
      }
      assert s == [s[0]] + s[1..];
    }
  }

  /** No piece contains the separator. */
  lemma {:induction false} SplitPiecesAvoid(s: string, sep: string)
    requires |sep| > 0
    ensures forall k :: 0 <= k < |Split(s, sep)| ==> Avoids(Split(s, sep)[k], sep)
    decreases |s|
  {
    if |s| < |sep| {
      forall i: nat | i < |s| ensures !OccursAt(s, sep, i) { }
    } else if s[..|sep|] == sep {
      SplitPiecesAvoid(s[|sep|..], sep);
      var rest := Split(s[|sep|..], sep);
      assert Split(s, sep) == [""] + rest;
      forall k | 0 <= k < |Split(s, sep)| ensures Avoids(Split(s, sep)[k], sep) {
        if k > 0 { assert Split(s, sep)[k] == rest[k - 1]; }
      }
    } else {
      SplitPiecesAvoid(s[1..], sep);
      var rest := Split(s[1..], sep);
      var head := [s[0]] + rest[0];
      assert Split(s, sep) == [head] + rest[1..];
      JoinSplit(s[1..], sep);
      HeadIsPrefix(rest, sep);
      assert head == s[..|head|];
      if |sep| <= |head| {
        assert head[..|sep|] == s[..|sep|];
      }
      assert head[1..] == rest[0];
      ConsAvoids(head, sep);
      forall k | 0 <= k < |Split(s, sep)| ensures Avoids(Split(s, sep)[k], sep) {
        if k > 0 { assert Split(s, sep)[k] == rest[k]; }
      }
    }
  }

  /** A string avoids the separator if its tail does and it does not start with it. */
  lemma ConsAvoids(head: string, sep: string)
    requires |head| >= 1 && Avoids(head[1..], sep) && !OccursAt(head, sep, 0)
    ensures Avoids(head, sep)
  {
    forall i: nat | 0 < i < |head| && i + |sep| <= |head| ensures !OccursAt(head, sep, i) {
      assert head[i..i + |sep|] == head[1..][i - 1..i - 1 + |sep|];
      assert !OccursAt(head[1..], sep, i - 1);
    }
  }

  /** The first piece is a prefix of the joined string. */
  lemma HeadIsPrefix(pieces: seq<string>, sep: string)
    requires |pieces| >= 1
    ensures |pieces[0]| <= |Join(pieces, sep)|
    ensures Join(pieces, sep)[..|pieces[0]|] == pieces[0]
  {
  }

  /** Position of the first `=` in `s`, if any. */
  function FirstEquals(s: string): (r: Option<nat>)
    ensures r.Some? ==> r.value < |s| && s[r.value] == '=' && forall j :: 0 <= j < r.value ==> s[j] != '='
    ensures r.None? ==> forall j :: 0 <= j < |s| ==> s[j] != '='
  {
    if |s| == 0 then None
    else if s[0] == '=' then Some(0)
    else match FirstEquals(s[1..])
      case None => None
      case Some(j) => Some(j + 1)
  }

  /**
   * piece.split("=", 1) used as a key/value pair: the key is everything before the
   * first "=" and the value everything after it; no "=" is an error.
   */
  function SplitPair(piece: string): (r: Option<(string, string)>)
    ensures r.None? <==> '=' !in piece
    ensures r.Some? ==> '=' !in r.value.0 && r.value.0 + "=" + r.value.1 == piece
  {
    match FirstEquals(piece)
    case None => None
    case Some(i) =>
      assert piece == piece[..i] + "=" + piece[i + 1..];
      Some((piece[..i], piece[i + 1..]))
  }

  /** dict(pairs): insert the pairs left to right, later keys overwriting earlier ones. */
  function ToDict(pairs: seq<(string, string)>): (d: map<string, string>)
    ensures d.Keys == set k | 0 <= k < |pairs| :: pairs[k].0
  {
    if |pairs| == 0 then map[]
    else ToDict(pairs[..|pairs| - 1])[pairs[|pairs| - 1].0 := pairs[|pairs| - 1].1]
  }

  /** The pairs of all pieces, or None when some piece has no "=". */
  function PairsOf(pieces: seq<string>): (r: Option<seq<(string, string)>>)
    ensures r.Some? <==> forall k :: 0 <= k < |pieces| ==> '=' in pieces[k]
    ensures r.Some? ==> |r.value| == |pieces|
    ensures r.Some? ==> forall k :: 0 <= k < |pieces| ==> Some(r.value[k]) == SplitPair(pieces[k])
  {
    if |pieces| == 0 then Some([])
    else match (SplitPair(pieces[0]), PairsOf(pieces[1..]))
      case (Some(p), Some(ps)) =>
        assert forall k :: 1 <= k < |pieces| ==> pieces[k] == pieces[1..][k - 1];
        Some([p] + ps)
      case (None, _) => None
      case (_, None) =>
        assert forall k :: 0 <= k < |pieces[1..]| ==> pieces[1..][k] == pieces[k + 1];
        None
  }

  /** Possible failure of the parse: dict() given a one-element sequence. */
  datatype CookieError = PieceWithoutEquals

  /** `dict([l.split("=", 1) for l in cookies.split("; ")])`. */
  function ParseCookies(header: string): Result<map<string, string>, CookieError>
  {
    match PairsOf(Split(header, Separator))
    case None => Err(PieceWithoutEquals)
    case Some(pairs) => Ok(ToDict(pairs))
  }

  /** Later pairs win: the dictionary holds the value of the last pair with each key. */
  lemma {:induction false} ToDictLastWins(pairs: seq<(string, string)>, k: nat)
    requires k < |pairs|
    requires forall j :: k < j < |pairs| ==> pairs[j].0 != pairs[k].0
    ensures pairs[k].0 in ToDict(pairs) && ToDict(pairs)[pairs[k].0] == pairs[k].1
    decreases |pairs|
  {
    if k < |pairs| - 1 {
      ToDictLastWins(pairs[..|pairs| - 1], k);
    }
  }

  /**
   * The parse fails exactly when some "; "-separated piece of the header has no "=";
   * otherwise every key of the result is the part before the first "=" of some piece and
   * maps to the part after it in the LAST piece with that key.
   */
  lemma ParseCookiesMeaning(header: string)
    ensures var pieces := Split(header, Separator);
      && (ParseCookies(header).Err? <==> exists k :: 0 <= k < |pieces| && '=' !in pieces[k])
      && (ParseCookies(header).Ok? ==>
            forall k :: 0 <= k < |pieces| ==>
              var (key, value) := SplitPair(pieces[k]).value;
              (forall j :: k < j < |pieces| ==> SplitPair(pieces[j]).value.0 != key) ==>
                key in ParseCookies(header).value && ParseCookies(header).value[key] == value)
  {
    var pieces := Split(header, Separator);
    var pr := PairsOf(pieces);
    if pr.Some? {
      forall k | 0 <= k < |pieces| && (forall j :: k < j < |pieces| ==> SplitPair(pieces[j]).value.0 != SplitPair(pieces[k]).value.0)
        ensures SplitPair(pieces[k]).value.0 in ParseCookies(header).value
        ensures ParseCookies(header).value[SplitPair(pieces[k]).value.0] == SplitPair(pieces[k]).value.1
      {
        ToDictLastWins(pr.value, k);
      }
    }
  }

  /** An empty header is one empty piece, which has no "=", so the parse raises. */
  lemma EmptyHeaderFails()
    ensures ParseCookies("").Err?
  {
    assert Split("", Separator) == [""];
  }

  /** A trailing "; " leaves an empty last piece, so the parse raises. */
  lemma TrailingSeparatorFails(header: string)
    ensures ParseCookies(header + Separator).Err?
  {
    TrailingPieceEmpty(header);
    var pieces := Split(header + Separator, Separator);
    assert '=' !in pieces[|pieces| - 1];
  }

  lemma {:induction false} TrailingPieceEmpty(s: string)
    ensures var r := Split(s + Separator, Separator); r[|r| - 1] == ""
    decreases |s|
  {
    var t := s + Separator;
    if |s| == 0 {
      assert t == Separator && t[|Separator|..] == "";
    } else if |s| == 1 {
      assert t[1] == ';' && t[..|Separator|] != Separator;
      assert t[1..] == "" + Separator;
      TrailingPieceEmpty("");
    } else if t[..|Separator|] == Separator {
      assert t[|Separator|..] == s[|Separator|..] + Separator;
      TrailingPieceEmpty(s[|Separator|..]);
    } else {
      assert t[1..] == s[1..] + Separator;
      TrailingPieceEmpty(s[1..]);
    }
  }
}
