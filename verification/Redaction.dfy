/** Secret redaction: `_redact_secrets` in sandbox/app/executor.py.

    `str.replace` scans left to right and replaces non-overlapping occurrences.  The results
    below say which secrets can survive a whole pass over a secrets map, in any order.
 */
module Redaction {
  import opened Common

  const MARKER: string := "[REDACTED]"
  const INNER: string := "REDACTED"
  const MIN_SECRET_LENGTH := 8

  // ---------------------------------------------------------------------------------------
  // Occurrences
  // ---------------------------------------------------------------------------------------

  ghost predicate OccursAt(w: string, t: string, k: int) {
    0 <= k && k + |w| <= |t| && t[k..k + |w|] == w
  }

  ghost predicate Occurs(w: string, t: string) {
    exists k :: OccursAt(w, t, k)
  }

  /** Only values this long are redacted. */
  predicate Redactable(v: string) {
    |v| >= MIN_SECRET_LENGTH
  }

  /** No redactable value is left in `t`. */
  ghost predicate Clean(t: string, values: seq<string>) {
    forall v :: v in values && Redactable(v) ==> !Occurs(v, t)
  }

  lemma OccursAtDrop(w: string, t: string, n: nat, k: int)
    requires n <= k && OccursAt(w, t, k)
    ensures OccursAt(w, t[n..], k - n)
  {
    assert t[n..][k - n..k - n + |w|] == t[k..k + |w|];
  }

  lemma OccursAtBehind(w: string, head: string, tail: string, k: int)
    requires OccursAt(w, tail, k)
    ensures OccursAt(w, head + tail, k + |head|)
  {
    assert (head + tail)[k + |head|..k + |head| + |w|] == tail[k..k + |w|];
  }

  lemma OccursInPrefix(w: string, t: string, n: nat, k: int)
    requires n <= |t| && OccursAt(w, t[..n], k)
    ensures OccursAt(w, t, k)
  {
    assert t[..n][k..k + |w|] == t[k..k + |w|];
  }

  lemma ShiftOccurrence(w: string, t: string, n: nat)
    requires n <= |t| && Occurs(w, t[n..])
    ensures Occurs(w, t)
  {
    var k :| OccursAt(w, t[n..], k);
    assert t[n..][k..k + |w|] == t[k + n..k + n + |w|];
    assert OccursAt(w, t, k + n);
  }

  // ---------------------------------------------------------------------------------------
  // Python's str.replace and the redaction loop
  // ---------------------------------------------------------------------------------------

  /** `t.replace(v, MARKER)` for a non-empty `v`. */
  function Replace(t: string, v: string): string
    requires |v| > 0
    decreases |t|
  {
    if |t| < |v| then t
    else if t[..|v|] == v then MARKER + Replace(t[|v|..], v)
    else [t[0]] + Replace(t[1..], v)
  }

  /** One secret's turn in the loop: short values are skipped. */
  function RedactOne(t: string, v: string): string {
    if Redactable(v) then Replace(t, v) else t
  }

  /** The text after every value had its turn, in the order given. */
  function Redacted(t: string, values: seq<string>): string
    decreases |values|
  {
    if values == [] then t
    else Redacted(RedactOne(t, values[0]), values[1..])
  }

  method RedactSecrets(text: string, secrets: seq<string>) returns (r: string)
    ensures r == Redacted(text, secrets)
  {
    if secrets == [] || text == "" {
      EmptyStaysEmpty(secrets);
      return text;
    }
    r := text;
    var i := 0;
    while i < |secrets|
      invariant 0 <= i <= |secrets|
      invariant Redacted(r, secrets[i..]) == Redacted(text, secrets)
    {
      var value := secrets[i];
      assert secrets[i..][1..] == secrets[i + 1..];
      if value != "" && |value| >= MIN_SECRET_LENGTH {
        r := Replace(r, value);
      }
      i := i + 1;
    }
  }

  lemma {:induction false} EmptyStaysEmpty(values: seq<string>)
    ensures Redacted("", values) == ""
    decreases |values|
  {
    if values != [] {
      EmptyStaysEmpty(values[1..]);
    }
  }

  // ---------------------------------------------------------------------------------------
  // str.replace against an independent description: split the text into gaps, join with markers
  // ---------------------------------------------------------------------------------------

  /** The pieces of `t` between the occurrences the left-to-right scan consumes. */
  function Gaps(t: string, v: string): (g: seq<string>)
    requires |v| > 0
    ensures |g| > 0
    decreases |t|
  {
    if |t| < |v| then [t]
    else if t[..|v|] == v then [""] + Gaps(t[|v|..], v)
    else
      var rest := Gaps(t[1..], v);
      [[t[0]] + rest[0]] + rest[1..]
  }

  lemma JoinFirstChar(c: char, parts: seq<string>, separator: string)
    requires |parts| > 0
    ensures Join([[c] + parts[0]] + parts[1..], separator) == [c] + Join(parts, separator)
  {
    if |parts| > 1 {
      assert parts == [parts[0]] + parts[1..];
      JoinCons(parts[0], parts[1..], separator);
      JoinCons([c] + parts[0], parts[1..], separator);
      assert [c] + parts[0] + separator + Join(parts[1..], separator)
          == [c] + (parts[0] + separator + Join(parts[1..], separator));
    }
  }

  lemma JoinCons(first: string, rest: seq<string>, separator: string)
    requires |rest| > 0
    ensures Join([first] + rest, separator) == first + separator + Join(rest, separator)
  {
    assert ([first] + rest)[1..] == rest;
  }

  /** The gaps cover the whole text but the occurrences between them ... */
  lemma {:induction false} GapsRebuildText(t: string, v: string)
    requires |v| > 0
    ensures Join(Gaps(t, v), v) == t
    decreases |t|
  {
    if |t| < |v| {
    } else if t[..|v|] == v {
      GapsRebuildText(t[|v|..], v);
      JoinCons("", Gaps(t[|v|..], v), v);
      assert t == v + t[|v|..] == "" + v + t[|v|..];
    } else {
      GapsRebuildText(t[1..], v);
      JoinFirstChar(t[0], Gaps(t[1..], v), v);
    }
  }

  /** ... and replacing is joining them with the marker, so nothing else changes ... */
  lemma {:induction false} ReplaceJoinsGaps(t: string, v: string)
    requires |v| > 0
    ensures Join(Gaps(t, v), MARKER) == Replace(t, v)
    decreases |t|
  {
    if |t| < |v| {
    } else if t[..|v|] == v {
      ReplaceJoinsGaps(t[|v|..], v);
      JoinCons("", Gaps(t[|v|..], v), MARKER);
      assert "" + MARKER == MARKER;
    } else {
      ReplaceJoinsGaps(t[1..], v);
      JoinFirstChar(t[0], Gaps(t[1..], v), MARKER);
    }
  }

  /** ... and no gap contains the secret. */
  lemma {:induction false} GapsAreClean(t: string, v: string)
    requires |v| > 0
    ensures forall g :: g in Gaps(t, v) ==> !Occurs(v, g)
    decreases |t|
  {
    if |t| < |v| {
    } else if t[..|v|] == v {
      GapsAreClean(t[|v|..], v);
    } else {
      var rest := Gaps(t[1..], v);
      var first := [t[0]] + rest[0];
      GapsAreClean(t[1..], v);
      FirstGapIsPrefix(t[1..], v);
      assert first == t[..1 + |rest[0]|] && first[1..] == rest[0] && rest[0] in rest;
      if k :| OccursAt(v, first, k) {
        OccursInPrefix(v, t, |first|, k);
        OccursAtDrop(v, first, 1, k);
      }
      assert forall g :: g in Gaps(t, v) ==> g == first || g in rest;
    }
  }

  lemma {:induction false} FirstGapIsPrefix(t: string, v: string)
    requires |v| > 0
    ensures Gaps(t, v)[0] <= t
    decreases |t|
  {
    if |t| >= |v| && t[..|v|] != v {
      FirstGapIsPrefix(t[1..], v);
      assert t == [t[0]] + t[1..];
    }
  }

  // ---------------------------------------------------------------------------------------
  // Which values the marker can touch
  // ---------------------------------------------------------------------------------------

  /** `w`, laid over the marker with its first character at position `d`, shares at least one
      position with it and agrees on every shared position. */
  ghost predicate Agrees(w: string, d: int) {
    && -|w| < d < |MARKER|
    && forall i :: 0 <= i < |w| && 0 <= d + i < |MARKER| ==> w[i] == MARKER[d + i]
  }

  ghost predicate Touches(w: string) {
    exists d :: Agrees(w, d)
  }

  /** What of `w` comes before a marker at distance `d` from its start. */
  function Before(w: string, d: int): string {
    if 0 <= -d <= |w| then w[..-d] else ""
  }

  /** Reading `p + v`, the scan for `v` passes over `p` and consumes the `v` behind it. */
  ghost predicate ScansPast(v: string, p: string) {
    forall j :: 0 <= j < |p| ==> !OccursAt(v, p + v, j)
  }

  /** Replacing `v` by the marker can make `w` appear: `w` can be laid over the marker such that
      the scan gets past what of `w` comes before it. */
  ghost predicate Creates(v: string, w: string) {
    exists d :: Agrees(w, d) && ScansPast(v, Before(w, d))
  }

  /** Reading `w[n..]` at the front of the output, behind `w[..n]`, reads it at the front of the
      input: no marker can start inside it. */
  lemma {:induction false} PrefixComesFromInput(t: string, v: string, w: string, n: nat)
    requires |v| > 0 && n <= |w|
    requires !Creates(v, w)
    requires forall j :: 0 <= j < n ==> !OccursAt(v, w[..n] + t, j)
    requires w[n..] <= Replace(t, v)
    ensures w[n..] <= t
    decreases |t|
  {
    if n == |w| || |t| < |v| {
    } else if t[..|v|] == v {
      MarkerBehind(t, v, w, n);
    } else {
      assert w[n..] == [w[n]] + w[n + 1..];
      assert Replace(t, v)[1..] == Replace(t[1..], v);
      assert w[..n + 1] + t[1..] == w[..n] + t;
      forall j | 0 <= j < n + 1 ensures !OccursAt(v, w[..n] + t, j) {
        NotBehind(v, w[..n], t);
      }
      PrefixComesFromInput(t[1..], v, w, n + 1);
      assert t == [t[0]] + t[1..];
    }
  }

  lemma NotBehind(v: string, head: string, t: string)
    requires |v| <= |t| && t[..|v|] != v
    ensures !OccursAt(v, head + t, |head|)
  {
    assert (head + t)[|head|..|head| + |v|] == t[..|v|];
  }

  lemma MarkerBehind(t: string, v: string, w: string, n: nat)
    requires n < |w| && v != "" && v <= t
    requires forall j :: 0 <= j < n ==> !OccursAt(v, w[..n] + t, j)
    requires w[n..] <= Replace(t, v) && MARKER <= Replace(t, v)
    ensures Creates(v, w)
  {
    var d := 0 - n;
    forall i: int | 0 <= i < |w| && 0 <= d + i < |MARKER| ensures w[i] == MARKER[d + i] {
      assert w[n..][i - n] == Replace(t, v)[i - n];
    }
    forall j | 0 <= j < n ensures !OccursAt(v, w[..n] + v, j) {
      if OccursAt(v, w[..n] + v, j) {
        assert (w[..n] + t)[..n + |v|] == w[..n] + v;
        OccursInPrefix(v, w[..n] + t, n + |v|, j);
      }
    }
    assert Agrees(w, d) && Before(w, d) == w[..n];
  }

  /** A value read from inside a marker can be laid over it. */
  lemma OccurrenceInMarker(w: string, k: int, v: string, o: string)
    requires |w| > 0 && k < |MARKER| && OccursAt(w, o, k) && MARKER <= o
    ensures Creates(v, w)
  {
    forall i | 0 <= i < |w| && 0 <= k + i < |MARKER| ensures w[i] == MARKER[k + i] {
      assert o[k..k + |w|][i] == o[k + i];
    }
    assert Agrees(w, k) && Before(w, k) == "";
  }

  /** Unless replacing `v` can create `w`, every occurrence of `w` in the output was already in the
      input; and the value just replaced has none. */
  lemma {:induction false} OccurrenceComesFromInput(t: string, v: string, w: string, k: int)
    requires |v| > 0 && |w| > 0 && !Creates(v, w)
    requires OccursAt(w, Replace(t, v), k)
    ensures Occurs(w, t) && w != v
    decreases |t|
  {
    var o := Replace(t, v);
    if |t| < |v| {
      assert OccursAt(w, t, k);
    } else if t[..|v|] == v {
      if k < |MARKER| {
        OccurrenceInMarker(w, k, v, o);
      } else {
        OccursAtDrop(w, o, |MARKER|, k);
        assert o[|MARKER|..] == Replace(t[|v|..], v);
        OccurrenceComesFromInput(t[|v|..], v, w, k - |MARKER|);
        ShiftOccurrence(w, t, |v|);
      }
    } else if k == 0 {
      assert w[0..] == w;
      PrefixComesFromInput(t, v, w, 0);
      assert OccursAt(w, t, 0);
    } else {
      OccursAtDrop(w, o, 1, k);
      assert o[1..] == Replace(t[1..], v);
      OccurrenceComesFromInput(t[1..], v, w, k - 1);
      ShiftOccurrence(w, t, 1);
    }
  }

  /** A value that no later secret can create is not re-created. */
  lemma {:induction false} RedactionCreatesNothing(t: string, values: seq<string>, w: string)
    requires Redactable(w) && !Occurs(w, t)
    requires forall v :: v in values && Redactable(v) ==> !Creates(v, w)
    ensures !Occurs(w, Redacted(t, values))
    decreases |values|
  {
    if values != [] {
      var t' := RedactOne(t, values[0]);
      if k :| OccursAt(w, t', k) {
        if Redactable(values[0]) {
          OccurrenceComesFromInput(t, values[0], w, k);
        }
        assert false;
      }
      RedactionCreatesNothing(t', values[1..], w);
    }
  }

  /** Redaction is complete: if no redactable value can create itself or one whose turn was before, the
      output contains none of them, for every text. */
  lemma {:induction false} RedactionComplete(t: string, values: seq<string>)
    requires forall i, j :: 0 <= i <= j < |values| && Redactable(values[i]) && Redactable(values[j])
                            ==> !Creates(values[j], values[i])
    ensures Clean(Redacted(t, values), values)
    decreases |values|
  {
    if values != [] {
      var v, rest, t' := values[0], values[1..], RedactOne(t, values[0]);
      forall i, j | 0 <= i <= j < |rest| && Redactable(rest[i]) && Redactable(rest[j])
        ensures !Creates(rest[j], rest[i])
      {
        assert rest[i] == values[i + 1] && rest[j] == values[j + 1];
      }
      RedactionComplete(t', rest);
      if Redactable(v) {
        assert !Creates(values[0], values[0]);
        if k :| OccursAt(v, t', k) {
          OccurrenceComesFromInput(t, v, v, k);
          assert false;
        }
        forall u | u in rest && Redactable(u) ensures !Creates(u, v) {
          var j :| 0 <= j < |rest| && rest[j] == u;
          assert u == values[j + 1];
        }
        RedactionCreatesNothing(t', rest, v);
      }
    }
  }

  /** In whatever order the values come, if none can create itself or another one. */
  lemma RedactionCompleteInAnyOrder(t: string, values: seq<string>)
    requires forall v, w :: v in values && w in values && Redactable(v) && Redactable(w) ==> !Creates(v, w)
    ensures Clean(Redacted(t, values), values)
  {
    RedactionComplete(t, values);
  }

  /** Redaction hides only secrets: a text without redactable values is returned unchanged. */
  lemma {:induction false} RedactionChangesNothingElse(t: string, values: seq<string>)
    requires Clean(t, values)
    ensures Redacted(t, values) == t
    decreases |values|
  {
    if values != [] {
      if Redactable(values[0]) {
        ReplaceWithoutOccurrence(t, values[0]);
      }
      RedactionChangesNothingElse(t, values[1..]);
    }
  }

  /** The values long enough to be redacted, in order. */
  function LongOnes(values: seq<string>): seq<string> {
    if values == [] then []
    else (if |values[0]| >= 8 then [values[0]] else []) + LongOnes(values[1..])
  }

  /** Values of fewer than eight characters do not matter, whatever else is redacted. */
  lemma {:induction false} ShortValuesAreIgnored(t: string, values: seq<string>)
    ensures Redacted(t, values) == Redacted(t, LongOnes(values))
    decreases |values|
  {
    if values != [] {
      ShortValuesAreIgnored(RedactOne(t, values[0]), values[1..]);
      if |values[0]| >= 8 {
        assert LongOnes(values)[1..] == LongOnes(values[1..]);
      } else {
        assert LongOnes(values) == LongOnes(values[1..]);
      }
    }
  }

  lemma {:induction false} ReplaceWithoutOccurrence(t: string, v: string)
    requires |v| > 0 && !Occurs(v, t)
    ensures Replace(t, v) == t
    decreases |t|
  {
    if |t| >= |v| {
      assert !OccursAt(v, t, 0);
      if Occurs(v, t[1..]) {
        ShiftOccurrence(v, t, 1);
      }
      ReplaceWithoutOccurrence(t[1..], v);
      assert t == [t[0]] + t[1..];
    }
  }

  // ---------------------------------------------------------------------------------------
  // Bracket-free secrets: the exact condition
  // ---------------------------------------------------------------------------------------

  predicate BracketFree(v: string) {
    '[' !in v && ']' !in v
  }

  /** Only the eight inner positions of the marker carry no bracket. */
  lemma AgreementReachesBracket(v: string, d: int)
    requires Redactable(v) && Agrees(v, d)
    ensures d <= 0 ==> '[' in v
    ensures d > 0 && d + |v| >= |MARKER| ==> ']' in v
  {
    if d <= 0 {
      assert v[0 - d] == MARKER[0];
    } else if d + |v| >= |MARKER| {
      assert v[9 - d] == MARKER[9];
    }
  }

  /** A redactable value without brackets touches the marker only if it is "REDACTED". */
  lemma BracketFreeTouches(v: string)
    requires Redactable(v) && BracketFree(v)
    ensures Touches(v) <==> v == INNER
  {
    if d :| Agrees(v, d) {
      AgreementReachesBracket(v, d);
      assert d == 1 && |v| == 8;
      forall i | 0 <= i < 8 ensures v[i] == INNER[i] {
        assert MARKER[1 + i] == INNER[i];
      }
    }
    if v == INNER {
      assert Agrees(v, 1);
    }
  }

  /** A text holding "REDACTED" keeps holding it, whatever is replaced. */
  lemma {:induction false} InnerSurvives(t: string, values: seq<string>)
    requires Occurs(INNER, t)
    ensures Occurs(INNER, Redacted(t, values))
    decreases |values|
  {
    if values != [] {
      var v := values[0];
      if Redactable(v) {
        if Occurs(v, t) {
          var p := MarkerAppears(t, v);
          MarkerHoldsInner(Replace(t, v), p);
        } else {
          ReplaceWithoutOccurrence(t, v);
        }
      }
      InnerSurvives(RedactOne(t, v), values[1..]);
    }
  }

  lemma MarkerHoldsInner(o: string, p: int)
    requires OccursAt(MARKER, o, p)
    ensures Occurs(INNER, o)
  {
    assert MARKER[1..9] == INNER;
    assert o[p..p + 10][1..9] == o[p + 1..p + 9];
    assert OccursAt(INNER, o, p + 1);
  }

  lemma {:induction false} MarkerAppears(t: string, v: string) returns (p: nat)
    requires |v| > 0 && Occurs(v, t)
    ensures OccursAt(MARKER, Replace(t, v), p)
    decreases |t|
  {
    var k :| OccursAt(v, t, k);
    if t[..|v|] == v {
      p := 0;
    } else {
      OccursAtDrop(v, t, 1, k);
      var q := MarkerAppears(t[1..], v);
      p := q + 1;
      OccursAtBehind(MARKER, [t[0]], Replace(t[1..], v), q);
    }
  }

  /** For secrets without brackets, redaction is complete on every text if and only if none of
      them is the word "REDACTED". */
  lemma BracketFreeExact(values: seq<string>)
    requires forall v :: v in values && Redactable(v) ==> BracketFree(v)
    ensures (forall t :: Clean(Redacted(t, values), values)) <==> INNER !in values
  {
    if INNER in values {
      assert OccursAt(INNER, INNER, 0);
      InnerSurvives(INNER, values);
      assert !Clean(Redacted(INNER, values), values);
    } else {
      forall v, w | v in values && w in values && Redactable(v) && Redactable(w) ensures !Creates(v, w) {
        BracketFreeTouches(w);
      }
      forall t ensures Clean(Redacted(t, values), values) {
        RedactionCompleteInAnyOrder(t, values);
      }
    }
  }

  // ---------------------------------------------------------------------------------------
  // One secret, whatever its characters: being able to create itself is what makes it leak
  // ---------------------------------------------------------------------------------------

  lemma ReplaceMatch(v: string, rest: string)
    requires |v| > 0
    ensures Replace(v + rest, v) == MARKER + Replace(rest, v)
  {
    assert (v + rest)[..|v|] == v && (v + rest)[|v|..] == rest;
  }

  lemma ReplaceSkip(c: char, rest: string, v: string)
    requires 0 < |v| <= |rest| + 1 && ([c] + rest)[..|v|] != v
    ensures Replace([c] + rest, v) == [c] + Replace(rest, v)
  {
    assert ([c] + rest)[1..] == rest;
  }

  lemma NoEarlyMatch(p: string, v: string, q: string)
    requires p != "" && |v| > 0 && ScansPast(v, p)
    ensures (p + (v + q))[..|v|] != v
    ensures ScansPast(v, p[1..])
  {
    assert (p + (v + q))[..|v|] == (p + v)[0..0 + |v|];
    assert !OccursAt(v, p + v, 0);
    PrefixStep(p, v);
    forall j | 0 <= j < |p[1..]| ensures !OccursAt(v, p[1..] + v, j) {
      if OccursAt(v, p[1..] + v, j) {
        OccursAtBehind(v, [p[0]], p[1..] + v, j);
      }
    }
  }

  lemma PrefixStep(p: string, x: string)
    requires p != ""
    ensures p + x == [p[0]] + (p[1..] + x)
  {
  }

  /** In `p + v + q`, where the scan gets past `p` and `q` is too short to hold another `v`, exactly
      the middle occurrence is replaced. */
  lemma {:induction false} ReplaceMiddle(p: string, v: string, q: string)
    requires |q| < |v| && ScansPast(v, p)
    ensures Replace(p + (v + q), v) == p + (MARKER + q)
    decreases |p|
  {
    if p == "" {
      ReplaceMatch(v, q);
      assert p + (v + q) == v + q && p + (MARKER + q) == MARKER + q;
    } else {
      NoEarlyMatch(p, v, q);
      PrefixStep(p, v + q);
      ReplaceSkip(p[0], p[1..] + (v + q), v);
      ReplaceMiddle(p[1..], v, q);
      PrefixStep(p, MARKER + q);
    }
  }

  /** `v` is still there after its own redaction from `t`. */
  ghost predicate Survives(v: string, t: string) {
    Occurs(v, Redacted(t, [v]))
  }

  /** A text from which the value survives its own redaction: the value, preceded and followed by
      what sticks out of the marker. */
  lemma CreatingValueLeaks(v: string) returns (t: string)
    requires Redactable(v) && Creates(v, v)
    ensures Survives(v, t)
  {
    var d :| Agrees(v, d) && ScansPast(v, Before(v, d));
    var p := Before(v, d);
    var q := if d + |v| > |MARKER| then v[|MARKER| - d..] else "";
    t := p + (v + q);
    ReplaceMiddle(p, v, q);
    RedactedByOne(t, v);
    AroundTheMarker(v, d, p, q);
  }

  lemma RedactedByOne(t: string, v: string)
    ensures Redacted(t, [v]) == RedactOne(t, v)
  {
    assert [v][1..] == [];
    assert Redacted(RedactOne(t, v), []) == RedactOne(t, v);
  }

  lemma AroundTheMarker(v: string, d: int, p: string, q: string)
    requires Agrees(v, d) && p == Before(v, d)
    requires q == if d + |v| > |MARKER| then v[|MARKER| - d..] else ""
    ensures Occurs(v, p + (MARKER + q))
  {
    var o := p + (MARKER + q);
    var k := if d < 0 then 0 else d;
    forall i | 0 <= i < |v| ensures o[k + i] == v[i] {
      assert |p| == k - d;
    }
    assert o[k..k + |v|] == v;
    assert OccursAt(v, o, k);
  }

  /** For any single redactable secret: redaction is complete on every text if and only if the value
      cannot create itself. */
  lemma SingleSecretExact(v: string)
    requires Redactable(v)
    ensures (forall t :: !Survives(v, t)) <==> !Creates(v, v)
  {
    if Creates(v, v) {
      var t := CreatingValueLeaks(v);
      assert Survives(v, t);
    } else {
      forall t ensures !Survives(v, t) {
        RedactionComplete(t, [v]);
        assert v in [v];
      }
    }
  }

  /** If only the last character of `v` is what it is, the scan gets past every text without it. */
  lemma ScansPastOthers(v: string, p: string)
    requires |v| > 0 && (forall i :: 0 <= i < |v| - 1 ==> v[i] != v[|v| - 1]) && v[|v| - 1] !in p
    ensures ScansPast(v, p)
  {
    forall j | 0 <= j < |p| ensures !OccursAt(v, p + v, j) {
      var i := j + |v| - 1;
      assert (p + v)[j..j + |v|][|v| - 1] == (p + v)[i];
      assert (p + v)[i] != v[|v| - 1];
    }
  }

  /** A concrete value that survives: its last character opens the marker. */
  lemma BracketedSecretLeaks() returns (v: string, t: string)
    ensures v == "hunter2[" && t == "hunter2hunter2["
    ensures Redacted(t, [v]) == "hunter2[REDACTED]" && Survives(v, t)
  {
    var p := "hunter2";
    v, t := p + "[", p + p + "[";
    ScansPastOthers(v, p);
    ReplaceMiddle(p, v, "");
    assert p + (v + "") == t;
    RedactedByOne(t, v);
    var o := p + (MARKER + "");
    assert o[0..8] == v;
    assert OccursAt(v, o, 0);
  }

  /** Touching the marker is not enough: eight opening brackets touch it, but a scan never gets
      past seven of them, so they are always redacted. */
  lemma TouchingMayBeHarmless()
    ensures Touches("[[[[[[[[") && !Creates("[[[[[[[[", "[[[[[[[[")
  {
    var v := "[[[[[[[[";
    assert Agrees(v, -7);
    forall d ensures !(Agrees(v, d) && ScansPast(v, Before(v, d))) {
      if 0 < d < |MARKER| {
        assert v[0] != MARKER[d];
      } else if -7 < d <= 0 {
        assert v[1 - d] != MARKER[1];
      } else if d == -7 {
        assert Before(v, d) == v[..7];
        assert (v[..7] + v)[0..8] == v;
        assert OccursAt(v, v[..7] + v, 0);
      }
    }
  }
}
