// The search for, and the replacement of, the encoded list in the redirect
// script: the pattern `(list\s*=\s*")([A-Za-z0-9+\/=]*)(")` and
// `String.prototype.replace` with `"$1" + encoded + "$3"`.

module Splice {
  import opened Wrappers
  import opened JsText
  import opened Base64

  /** One match of the pattern: `list` starts at `at`, the `=` is at `eq`,
      the opening quote at `open` and the closing quote at `close`; the
      payload (group 2) is strictly between the quotes. */
  datatype Match = Match(at: nat, eq: nat, open: nat, close: nat)

  predicate ListAt(t: string, i: nat)
    requires i + 4 <= |t|
  {
    t[i] == 'l' && t[i + 1] == 'i' && t[i + 2] == 's' && t[i + 3] == 't'
  }

  /** What it means for the pattern to match `t` from `m.at` to `m.close`:
      `list`, whitespace, `=`, whitespace, `"`, payload characters, `"`. */
  predicate IsMatch(t: string, m: Match) {
    && m.at + 4 <= m.eq < m.open < m.close < |t|
    && ListAt(t, m.at)
    && (forall k | m.at + 4 <= k < m.eq :: IsSpace(t[k]))
    && t[m.eq] == '='
    && (forall k | m.eq < k < m.open :: IsSpace(t[k]))
    && t[m.open] == '"'
    && (forall k | m.open < k < m.close :: IsBase64Char(t[k]))
    && t[m.close] == '"'
  }

  /** The end of the run that `\s*` consumes from `i`. */
  function SkipSpaces(t: string, i: nat): (j: nat)
    requires i <= |t|
    ensures i <= j <= |t|
    ensures forall k | i <= k < j :: IsSpace(t[k])
    ensures j < |t| ==> !IsSpace(t[j])
    decreases |t| - i
  {
    if i < |t| && IsSpace(t[i]) then SkipSpaces(t, i + 1) else i
  }

  /** The end of the run that `[A-Za-z0-9+\/=]*` consumes from `i`. */
  function SkipPayload(t: string, i: nat): (j: nat)
    requires i <= |t|
    ensures i <= j <= |t|
    ensures forall k | i <= k < j :: IsBase64Char(t[k])
    ensures j < |t| ==> !IsBase64Char(t[j])
    decreases |t| - i
  {
    if i < |t| && IsBase64Char(t[i]) then SkipPayload(t, i + 1) else i
  }

  /** A run of spaces that a non-space ends is the one `SkipSpaces` finds. */
  lemma {:induction false} SkipSpacesUnique(t: string, i: nat, j: nat)
    requires i <= j < |t| && !IsSpace(t[j])
    requires forall k | i <= k < j :: IsSpace(t[k])
    ensures SkipSpaces(t, i) == j
    decreases j - i
  {
    if i < j {
      SkipSpacesUnique(t, i + 1, j);
    }
  }

  /** A payload run that a non-payload character ends is the one
      `SkipPayload` finds. */
  lemma {:induction false} SkipPayloadUnique(t: string, i: nat, j: nat)
    requires i <= j < |t| && !IsBase64Char(t[j])
    requires forall k | i <= k < j :: IsBase64Char(t[k])
    ensures SkipPayload(t, i) == j
    decreases j - i
  {
    if i < j {
      SkipPayloadUnique(t, i + 1, j);
    }
  }

  /** The regular expression tried at position `i`. The quantifiers are
      greedy, and since neither `=` nor `"` can extend the run before it,
      no backtracking ever finds another match at the same position. */
  function MatchAt(t: string, i: nat): (r: Option<Match>)
    requires i <= |t|
    ensures r.Some? ==> r.value.at == i && i + 4 <= r.value.eq < r.value.open < r.value.close < |t|
  {
    if i + 4 <= |t| && ListAt(t, i) then
      var eq := SkipSpaces(t, i + 4);
      if eq < |t| && t[eq] == '=' then
        var open := SkipSpaces(t, eq + 1);
        if open < |t| && t[open] == '"' then
          var close := SkipPayload(t, open + 1);
          if close < |t| && t[close] == '"' then Some(Match(i, eq, open, close))
          else None
        else None
      else None
    else None
  }

  lemma MatchAtSound(t: string, i: nat)
    requires i <= |t| && MatchAt(t, i).Some?
    ensures MatchAt(t, i).value.at == i
    ensures IsMatch(t, MatchAt(t, i).value)
  {
  }

  /** Every match is found by trying its start position: the match at a
      position is unique. */
  lemma MatchAtComplete(t: string, m: Match)
    requires IsMatch(t, m)
    ensures MatchAt(t, m.at) == Some(m)
  {
    SkipSpacesUnique(t, m.at + 4, m.eq);
    SkipSpacesUnique(t, m.eq + 1, m.open);
    SkipPayloadUnique(t, m.open + 1, m.close);
  }

  /** The leftmost match starting at or after `i`. */
  function FindMatch(t: string, i: nat): (r: Option<Match>)
    requires i <= |t|
    ensures r.Some? ==> i <= r.value.at && r.value.at + 4 <= r.value.eq < r.value.open < r.value.close < |t|
    decreases |t| - i
  {
    var here := MatchAt(t, i);
    if here.Some? then here
    else if i == |t| then None
    else FindMatch(t, i + 1)
  }

  /** `FindMatch` returns a match at or after `i`, and no match starts
      between `i` and it; it returns `None` only when no match starts at or
      after `i`. */
  lemma {:induction false} FindMatchLeftmost(t: string, i: nat)
    requires i <= |t|
    ensures FindMatch(t, i).Some? ==>
      && IsMatch(t, FindMatch(t, i).value) && i <= FindMatch(t, i).value.at
      && forall m | IsMatch(t, m) && i <= m.at :: FindMatch(t, i).value.at <= m.at
    ensures FindMatch(t, i).None? ==> forall m | IsMatch(t, m) :: m.at < i
    decreases |t| - i
  {
    FindMatchSound(t, i);
    forall m | IsMatch(t, m) && i <= m.at
      ensures FindMatch(t, i).Some? && FindMatch(t, i).value.at <= m.at
    {
      FindMatchFirst(t, i, m);
    }
  }

  lemma {:induction false} FindMatchSound(t: string, i: nat)
    requires i <= |t|
    ensures FindMatch(t, i).Some? ==> IsMatch(t, FindMatch(t, i).value)
    decreases |t| - i
  {
    if MatchAt(t, i).Some? {
      MatchAtSound(t, i);
    } else if i < |t| {
      FindMatchSound(t, i + 1);
    }
  }

  /** The search from `i` stops at or before every match at or after `i`. */
  lemma {:induction false} FindMatchFirst(t: string, i: nat, m: Match)
    requires i <= |t| && IsMatch(t, m) && i <= m.at
    ensures FindMatch(t, i).Some? && FindMatch(t, i).value.at <= m.at
    decreases |t| - i
  {
    if MatchAt(t, i).None? {
      forall m' | IsMatch(t, m') && m'.at == i ensures false {
        MatchAtComplete(t, m');
      }
      FindMatchFirst(t, i + 1, m);
    }
  }

  /** A match that no other match precedes is the one the search finds. */
  lemma FindsFirstMatch(t: string, m: Match)
    requires IsMatch(t, m)
    requires forall m2 | IsMatch(t, m2) :: m.at <= m2.at
    ensures FindMatch(t, 0) == Some(m)
  {
    FindMatchLeftmost(t, 0);
    var f := FindMatch(t, 0).value;
    MatchAtComplete(t, m);
    MatchAtComplete(t, f);
  }

  /** `contents.replace(regex, "$1" + encoded + "$3")`: the first match's
      group 1, then the new payload, then group 3; no match leaves the text
      as it is. The payload is taken literally, which agrees with `replace`
      because an encoding never contains `$`. */
  function Replace(t: string, enc: string): string {
    match FindMatch(t, 0)
    case None => t
    case Some(m) => SpliceAt(t, m, enc)
  }

  /** Group 1 of `m` and what precedes it, the payload `enc`, then group 3
      and what follows it. */
  function SpliceAt(t: string, m: Match, enc: string): string
    requires m.at <= m.open < m.close < |t|
  {
    t[..m.at] + t[m.at..m.open + 1] + enc + t[m.close..m.close + 1] + t[m.close + 1..]
  }

  /** With no match the text is unchanged. */
  /** Only the first of two payloads is replaced, and the spaces around `=`
      are kept. */
  lemma ReplaceExample()
    ensures Replace("x list = \"ab\"; list=\"cd\"", "Q=") == "x list = \"" + "Q=" + "\"; list=\"cd\""
  {
    var t := "x list = \"ab\"; list=\"cd\"";
    ExampleFound();
    ReplaceFound(t, "Q=", Match(2, 7, 9, 12));
    assert t[..10] == "x list = \"";
    assert t[12..] == "\"; list=\"cd\"";
  }

  lemma ExampleFound()
    ensures FindMatch("x list = \"ab\"; list=\"cd\"", 0) == Some(Match(2, 7, 9, 12))
  {
    var t := "x list = \"ab\"; list=\"cd\"";
    ExampleMatch();
    MatchAtComplete(t, Match(2, 7, 9, 12));
    assert !ListAt(t, 0) && !ListAt(t, 1);
  }

  lemma ExampleMatch()
    ensures IsMatch("x list = \"ab\"; list=\"cd\"", Match(2, 7, 9, 12))
  {
    var t := "x list = \"ab\"; list=\"cd\"";
    assert ListAt(t, 2) && t[7] == '=' && t[9] == '"' && t[12] == '"';
    forall k | 6 <= k < 7 ensures IsSpace(t[k]) {
      assert t[k] == ' ';
    }
    forall k | 7 < k < 9 ensures IsSpace(t[k]) {
      assert t[k] == ' ';
    }
    forall k | 9 < k < 12 ensures IsBase64Char(t[k]) {
      assert t[k] == 'a' || t[k] == 'b';
    }
  }

  lemma ReplaceNoMatch(t: string, enc: string)
    requires forall m :: !IsMatch(t, m)
    ensures Replace(t, enc) == t
  {
    FindMatchLeftmost(t, 0);
  }

  /** With a match, only the payload of the first one changes: everything up
      to and including its opening quote, and everything from its closing
      quote on, is kept. */
  lemma ReplaceFirstMatch(t: string, enc: string, m: Match)
    requires IsMatch(t, m)
    requires forall m2 | IsMatch(t, m2) :: m.at <= m2.at
    ensures Replace(t, enc) == t[..m.open + 1] + enc + t[m.close..]
  {
    FindsFirstMatch(t, m);
    ReplaceFound(t, enc, m);
  }

  lemma ReplaceFound(t: string, enc: string, m: Match)
    requires FindMatch(t, 0) == Some(m)
    ensures Replace(t, enc) == t[..m.open + 1] + enc + t[m.close..]
  {
    assert Replace(t, enc) == SpliceAt(t, m, enc);
    SpliceKeepsOutside(t, m, enc);
  }

  lemma SpliceKeepsOutside(t: string, m: Match, enc: string)
    requires m.at <= m.open < m.close < |t|
    ensures SpliceAt(t, m, enc) == t[..m.open + 1] + enc + t[m.close..]
  {
    assert t[..m.at] + t[m.at..m.open + 1] == t[..m.open + 1];
    assert t[m.close..m.close + 1] + t[m.close + 1..] == t[m.close..];
  }

  /** A match only depends on the text up to its closing quote. */
  lemma MatchOnPrefix(t: string, u: string, m: Match, n: nat)
    requires IsMatch(t, m) && m.close < n <= |t| && n <= |u| && t[..n] == u[..n]
    ensures IsMatch(u, m)
  {
    forall k: nat | k < n ensures u[k] == t[k] {
      assert u[k] == u[..n][k];
    }
  }

  /** Two matches cannot overlap so that the later one's `list` lies inside
      the earlier one while the earlier one reaches past the later one's
      opening quote: every character of the earlier match after its `list`
      is a space, `=`, `"` or a payload character, and the later one's
      opening quote would fall inside the earlier one's payload. */
  lemma NoOverreach(u: string, mj: Match, m: Match)
    requires IsMatch(u, mj) && IsMatch(u, m) && mj.at < m.at
    ensures mj.close <= m.open
  {
  }

  /** Splicing the same payload twice changes nothing more, when the payload
      consists of payload characters, as an encoding does. */
  lemma ReplaceIdempotent(t: string, enc: string)
    requires forall i | 0 <= i < |enc| :: IsBase64Char(enc[i])
    ensures Replace(Replace(t, enc), enc) == Replace(t, enc)
    ensures FindMatch(t, 0).Some? ==> FindMatch(Replace(t, enc), 0).Some?
  {
    if FindMatch(t, 0).None? {
      assert Replace(t, enc) == t;
    } else {
      var m := FindMatch(t, 0).value;
      FindMatchLeftmost(t, 0);
      ReplaceFound(t, enc, m);
      ReplaceTwice(t, enc, m);
    }
  }

  /** The spliced text's first match is at the same place, and splicing the
      same payload into it again changes nothing. */
  lemma ReplaceTwice(t: string, enc: string, m: Match)
    requires forall i | 0 <= i < |enc| :: IsBase64Char(enc[i])
    requires IsMatch(t, m)
    requires forall m3 | IsMatch(t, m3) :: m.at <= m3.at
    ensures var u := t[..m.open + 1] + enc + t[m.close..];
      Replace(u, enc) == u && FindMatch(u, 0).Some?
  {
    var u := t[..m.open + 1] + enc + t[m.close..];
    var m2 := Match(m.at, m.eq, m.open, m.open + 1 + |enc|);
    SplicedFirstMatch(t, u, m, enc);
    ReplaceFound(u, enc, m2);
  }

  lemma SplicedFirstMatch(t: string, u: string, m: Match, enc: string)
    requires forall i | 0 <= i < |enc| :: IsBase64Char(enc[i])
    requires IsMatch(t, m)
    requires forall m3 | IsMatch(t, m3) :: m.at <= m3.at
    requires u == t[..m.open + 1] + enc + t[m.close..]
    ensures FindMatch(u, 0) == Some(Match(m.at, m.eq, m.open, m.open + 1 + |enc|))
    ensures u[..m.open + 1] + enc + u[m.open + 1 + |enc|..] == u
  {
    var m2 := Match(m.at, m.eq, m.open, m.open + 1 + |enc|);
    SplicedMatch(t, m, enc);
    SplicedFirst(t, u, m, m2);
    FindsFirstMatch(u, m2);
  }

  /** After the splice the same `list = "` is followed by the new payload
      and the old closing quote. */
  lemma SplicedMatch(t: string, m: Match, enc: string)
    requires IsMatch(t, m)
    requires forall i | 0 <= i < |enc| :: IsBase64Char(enc[i])
    ensures var u := t[..m.open + 1] + enc + t[m.close..];
      && IsMatch(u, Match(m.at, m.eq, m.open, m.open + 1 + |enc|))
      && u[..m.open + 1] == t[..m.open + 1]
      && u[..m.open + 1] + enc + u[m.open + 1 + |enc|..] == u
  {
    var u := t[..m.open + 1] + enc + t[m.close..];
    var m2 := Match(m.at, m.eq, m.open, m.open + 1 + |enc|);
    assert u[..m.open + 1] == t[..m.open + 1];
    forall k: nat | k <= m.open ensures u[k] == t[k] {
      assert u[k] == u[..m.open + 1][k];
    }
    forall k | m.open < k < m2.close ensures IsBase64Char(u[k]) {
      assert u[k] == enc[k - m.open - 1];
    }
    assert u[m2.close] == t[m.close];
    assert u[m2.close..] == t[m.close..];
  }

  /** No match of the spliced text starts before the first match of the
      original: one that ended before the opening quote would have been a
      match of the original, and none can reach past it. */
  lemma SplicedFirst(t: string, u: string, m: Match, m2: Match)
    requires IsMatch(t, m) && forall m3 | IsMatch(t, m3) :: m.at <= m3.at
    requires IsMatch(u, m2) && m2.at == m.at && m2.open == m.open
    requires m.open + 1 <= |u| && u[..m.open + 1] == t[..m.open + 1]
    ensures forall m3 | IsMatch(u, m3) :: m2.at <= m3.at
  {
    forall m3 | IsMatch(u, m3) ensures m2.at <= m3.at {
      if m3.at < m2.at {
        NoOverreach(u, m3, m2);
        MatchOnPrefix(u, t, m3, m.open + 1);
      }
    }
  }
}
