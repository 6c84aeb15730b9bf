/**
 * Log redaction (filtered_logger.py).
 *
 * `filter_datum` rewrites, for each field in turn, every match of the
 * regular expression `field=\S+?separator` to `field=redaction separator`.
 * The one pattern it builds is modelled by a scanner: `Redact` walks the
 * message left to right, and at each position either rewrites a match and
 * jumps past it or copies one character.
 *
 * Two conventions of the lemmas below. A lemma about a step of the scan
 * takes the next position as an argument fixed by its requires
 * (`next == p + 1`, `xk == |x| + k`), so that its conclusion names the same
 * `Redact` and `ValueEnd` terms as the caller's goal. The longer examples
 * take their message as parameters fixed by requires to the literal fields
 * (`n == "name=matthew;"`), so that they are proved field by field through
 * the general lemmas rather than by unfolding the scanner over a long
 * constant; the short examples are stated over literals directly.
 */
module FilteredLogger {
  import opened Wrappers

  /** `\S` matches what this rejects: the characters Python's `str.isspace`
      accepts, the whitespace class of `re` for text patterns. */
  predicate IsSpace(c: char) {
    var n := c as int;
    || 9 <= n <= 13
    || 28 <= n <= 32
    || n == 0x85 || n == 0xA0 || n == 0x1680
    || 0x2000 <= n <= 0x200A
    || n == 0x2028 || n == 0x2029 || n == 0x202F || n == 0x205F || n == 0x3000
  }

  /** `w` occurs in `m` at position `p`. */
  predicate StartsAt(m: string, p: nat, w: string) {
    p + |w| <= |m| && m[p..p + |w|] == w
  }

  /** The lazy `\S+?` followed by `sep`, starting at `q`: the position where
      the separator begins, or `None` when whitespace or the end of the
      message comes first. */
  function ValueEnd(m: string, q: nat, sep: string): (e: Option<nat>)
    ensures e.Some? ==> q < e.value && e.value + |sep| <= |m|
    decreases |m| - q
  {
    if q >= |m| || IsSpace(m[q]) then None
    else if StartsAt(m, q + 1, sep) then Some(q + 1)
    else ValueEnd(m, q + 1, sep)
  }

  /** Where the value of a match of `field=\S+?sep` at `p` ends, if there is one. */
  function MatchAt(m: string, p: nat, field: string, sep: string): (e: Option<nat>)
    ensures e.Some? ==> p + |field| + 1 < e.value && e.value + |sep| <= |m|
  {
    if StartsAt(m, p, field + "=") then ValueEnd(m, p + |field| + 1, sep) else None
  }

  /** `re.sub` of the pattern over `m[p..]`: non-overlapping matches, left to right. */
  function Redact(m: string, p: nat, field: string, redaction: string, sep: string): string
    decreases |m| - p
  {
    if p >= |m| then []
    else if MatchAt(m, p, field, sep).Some? then
      field + "=" + redaction + sep + Redact(m, MatchAt(m, p, field, sep).value + |sep|, field, redaction, sep)
    else [m[p]] + Redact(m, p + 1, field, redaction, sep)
  }

  /** One iteration of the loop: `re.sub(f'{field}=\S+?{sep}', f'{field}={redaction}{sep}', message)`. */
  function Substitute(field: string, redaction: string, message: string, sep: string): string {
    Redact(message, 0, field, redaction, sep)
  }

  /** The fields applied in list order, each to the output of the previous one. */
  function RedactAll(fields: seq<string>, redaction: string, message: string, sep: string): string
    decreases |fields|
  {
    if fields == [] then message
    else Substitute(fields[|fields| - 1], redaction, RedactAll(fields[..|fields| - 1], redaction, message, sep), sep)
  }

  /** `filter_datum(fields, redaction, message, separator)`. */
  method FilterDatum(fields: seq<string>, redaction: string, message: string, separator: string) returns (r: string)
    ensures r == RedactAll(fields, redaction, message, separator)
    ensures fields == [] ==> r == message
  {
    r := message;
    for i := 0 to |fields|
      invariant r == RedactAll(fields[..i], redaction, message, separator)
    {
      assert fields[..i + 1][..i] == fields[..i];
      r := Substitute(fields[i], redaction, r, separator);
    }
    assert fields[..|fields|] == fields;
  }

  // ---------------------------------------------------------------------
  // The scanner against a declarative description of a match.

  /** `m[q..e]` is a value `\S+` followed by the separator at `e`. */
  ghost predicate Value(m: string, q: nat, e: nat, sep: string) {
    q < e <= |m| && (forall i :: q <= i < e ==> !IsSpace(m[i])) && StartsAt(m, e, sep)
  }

  /** The lazy quantifier: `e` is the first such end. */
  ghost predicate LazyValue(m: string, q: nat, e: nat, sep: string) {
    Value(m, q, e, sep) && forall e' :: q < e' < e ==> !StartsAt(m, e', sep)
  }

  /** A match of `field=\S+?sep` at `p` whose value ends at `e`. */
  ghost predicate IsMatch(m: string, p: nat, field: string, sep: string, e: nat) {
    StartsAt(m, p, field + "=") && LazyValue(m, p + |field| + 1, e, sep)
  }

  lemma {:induction false} ValueEndSome(m: string, q: nat, sep: string)
    requires ValueEnd(m, q, sep).Some?
    ensures LazyValue(m, q, ValueEnd(m, q, sep).value, sep)
    decreases |m| - q
  {
    if !StartsAt(m, q + 1, sep) {
      ValueEndSome(m, q + 1, sep);
    }
  }

  /** No value followed by the separator starts at `q`. */
  ghost predicate NoValue(m: string, q: nat, sep: string) {
    forall e :: !Value(m, q, e, sep)
  }

  lemma {:induction false} ValueEndNone(m: string, q: nat, sep: string)
    requires ValueEnd(m, q, sep).None?
    ensures NoValue(m, q, sep)
    decreases |m| - q
  {
    if q < |m| && !IsSpace(m[q]) {
      ValueEndNone(m, q + 1, sep);
      forall e: nat | Value(m, q, e, sep) ensures false {
        if e > q + 1 { assert Value(m, q + 1, e, sep); }
      }
    }
  }

  /** The scanner finds exactly the matches the pattern describes, and picks
      the shortest value when several separators follow. */
  lemma {:induction false} MatchAtIsMatch(m: string, p: nat, field: string, sep: string, e: nat)
    ensures MatchAt(m, p, field, sep) == Some(e) <==> IsMatch(m, p, field, sep, e)
  {
    var q := p + |field| + 1;
    if StartsAt(m, p, field + "=") {
      match ValueEnd(m, q, sep)
      case Some(e0) =>
        ValueEndSome(m, q, sep);
      case None =>
        ValueEndNone(m, q, sep);
    }
  }

  /** No match at `p`: the pattern needs some separator after a non-empty,
      whitespace-free value. */
  lemma {:induction false} NoMatchAt(m: string, p: nat, field: string, sep: string)
    ensures MatchAt(m, p, field, sep).None? <==>
      !StartsAt(m, p, field + "=") || NoValue(m, p + |field| + 1, sep)
  {
    var q := p + |field| + 1;
    if StartsAt(m, p, field + "=") {
      if ValueEnd(m, q, sep).None? {
        ValueEndNone(m, q, sep);
      } else {
        ValueEndSome(m, q, sep);
      }
    }
  }

  // ---------------------------------------------------------------------
  // What the substitution does to the message.

  /** A match at `p` becomes `field=` + redaction + separator, and the scan
      resumes after the separator. */
  lemma {:induction false} RedactAtMatch(m: string, p: nat, field: string, redaction: string, sep: string, e: nat)
    requires IsMatch(m, p, field, sep, e)
    ensures Redact(m, p, field, redaction, sep) ==
      field + "=" + redaction + sep + Redact(m, e + |sep|, field, redaction, sep)
  {
    MatchAtIsMatch(m, p, field, sep, e);
  }

  /** No match starts at `j`. */
  predicate Unmatched(m: string, j: nat, field: string, sep: string) {
    MatchAt(m, j, field, sep).None?
  }

  /** Splitting a slice after its first character. */
  lemma {:induction false} SliceCons(m: string, p: nat, next: nat, p2: nat)
    requires p < p2 <= |m| && next == p + 1
    ensures m[p..p2] == [m[p]] + m[next..p2]
  {
  }

  /** Text where no match starts is copied through unchanged and in order. */
  lemma {:induction false} RedactSkip(m: string, p: nat, p2: nat, field: string, redaction: string, sep: string)
    requires p <= p2 <= |m|
    requires forall j :: p <= j < p2 ==> Unmatched(m, j, field, sep)
    ensures Redact(m, p, field, redaction, sep) == m[p..p2] + Redact(m, p2, field, redaction, sep)
    decreases p2 - p
  {
    if p < p2 {
      var next := p + 1;
      assert Unmatched(m, p, field, sep);
      RedactAtNone(m, p, next, field, redaction, sep);
      RedactSkip(m, next, p2, field, redaction, sep);
      SliceCons(m, p, next, p2);
      assert [m[p]] + (m[next..p2] + Redact(m, p2, field, redaction, sep)) == [m[p]] + m[next..p2] + Redact(m, p2, field, redaction, sep);
    }
  }

  /** With no separator anywhere after `p` nothing matches, so the rest of
      the message is kept: a final field with no trailing separator stays. */
  lemma {:induction false} RedactNoSeparator(m: string, p: nat, field: string, redaction: string, sep: string)
    requires p <= |m|
    requires forall j :: p <= j <= |m| ==> !StartsAt(m, j, sep)
    ensures Redact(m, p, field, redaction, sep) == m[p..]
  {
    forall j | p <= j < |m| ensures MatchAt(m, j, field, sep).None? {
      if MatchAt(m, j, field, sep).Some? {
        var e := MatchAt(m, j, field, sep).value;
        MatchAtIsMatch(m, j, field, sep, e);
      }
    }
    RedactSkip(m, p, |m|, field, redaction, sep);
  }

  // Prefixing a text `x` does not change what happens at a position of `y`:
  // position `k` of `y` is position `xk == |x| + k` of `x + y`, and pattern
  // tests, value ends and the rewrite agree there.

  lemma {:induction false} StartsAtShift(x: string, y: string, k: nat, xk: nat, w: string)
    requires k <= |y| && xk == |x| + k
    ensures StartsAt(x + y, xk, w) <==> StartsAt(y, k, w)
  {
    if k + |w| <= |y| {
      assert (x + y)[xk..xk + |w|] == y[k..k + |w|];
    }
  }

  /** One step of the value scan at a non-space character, with the next position `next`. */
  lemma {:induction false} ValueEndStep(m: string, q: nat, next: nat, sep: string)
    requires q < |m| && !IsSpace(m[q]) && next == q + 1
    ensures ValueEnd(m, q, sep) == if StartsAt(m, next, sep) then Some(next) else ValueEnd(m, next, sep)
  {
    assert ValueEnd(m, q + 1, sep) == ValueEnd(m, next, sep);
  }

  lemma {:induction false} ValueEndShift(x: string, y: string, k: nat, xk: nat, sep: string)
    requires k <= |y| && xk == |x| + k
    ensures ValueEnd(x + y, xk, sep).Some? <==> ValueEnd(y, k, sep).Some?
    ensures ValueEnd(y, k, sep).Some? ==> ValueEnd(x + y, xk, sep).value == |x| + ValueEnd(y, k, sep).value
    decreases |y| - k
  {
    if k < |y| {
      assert (x + y)[xk] == y[k];
      if !IsSpace(y[k]) {
        var next, xnext := k + 1, xk + 1;
        ValueEndStep(y, k, next, sep);
        ValueEndStep(x + y, xk, xnext, sep);
        StartsAtShift(x, y, next, xnext, sep);
        if !StartsAt(y, next, sep) {
          ValueEndShift(x, y, next, xnext, sep);
        }
      }
    }
  }

  lemma {:induction false} MatchAtShift(x: string, y: string, k: nat, xk: nat, field: string, sep: string)
    requires k <= |y| && xk == |x| + k
    ensures MatchAt(x + y, xk, field, sep).Some? <==> MatchAt(y, k, field, sep).Some?
    ensures MatchAt(y, k, field, sep).Some? ==> MatchAt(x + y, xk, field, sep).value == |x| + MatchAt(y, k, field, sep).value
  {
    StartsAtShift(x, y, k, xk, field + "=");
    if StartsAt(y, k, field + "=") {
      ValueEndShift(x, y, k + |field| + 1, xk + |field| + 1, sep);
    }
  }

  /** One step of the scan at a match, with the position `next` after its separator. */
  lemma {:induction false} RedactAtSome(m: string, p: nat, e: nat, next: nat, field: string, redaction: string, sep: string)
    requires p < |m| && MatchAt(m, p, field, sep).Some? && MatchAt(m, p, field, sep).value == e
    requires next == e + |sep|
    ensures Redact(m, p, field, redaction, sep) ==
      field + "=" + redaction + sep + Redact(m, next, field, redaction, sep)
  {
    var rest := Redact(m, MatchAt(m, p, field, sep).value + |sep|, field, redaction, sep);
    assert rest == Redact(m, next, field, redaction, sep);
    assert Redact(m, p, field, redaction, sep) == field + "=" + redaction + sep + rest;
  }

  /** One step of the scan where no match starts, with the next position `next`. */
  lemma {:induction false} RedactAtNone(m: string, p: nat, next: nat, field: string, redaction: string, sep: string)
    requires p < |m| && MatchAt(m, p, field, sep).None? && next == p + 1
    ensures Redact(m, p, field, redaction, sep) == [m[p]] + Redact(m, next, field, redaction, sep)
  {
    var rest := Redact(m, p + 1, field, redaction, sep);
    assert rest == Redact(m, next, field, redaction, sep);
    assert Redact(m, p, field, redaction, sep) == [m[p]] + rest;
  }

  /** `RedactShift` at a match, given the claim for the position `next`
      after the separator. */
  lemma {:induction false} RedactShiftMatch(x: string, y: string, k: nat, xk: nat, next: nat, xnext: nat, field: string, redaction: string, sep: string)
    requires k < |y| && xk == |x| + k && xnext == |x| + next
    requires MatchAt(y, k, field, sep).Some? && next == MatchAt(y, k, field, sep).value + |sep|
    requires Redact(x + y, xnext, field, redaction, sep) == Redact(y, next, field, redaction, sep)
    ensures Redact(x + y, xk, field, redaction, sep) == Redact(y, k, field, redaction, sep)
  {
    MatchAtShift(x, y, k, xk, field, sep);
    var e := MatchAt(y, k, field, sep).value;
    RedactAtSome(y, k, e, next, field, redaction, sep);
    RedactAtSome(x + y, xk, |x| + e, xnext, field, redaction, sep);
  }

  /** `RedactShift` where no match starts, given the claim for the next position. */
  lemma {:induction false} RedactShiftCopy(x: string, y: string, k: nat, xk: nat, next: nat, xnext: nat, field: string, redaction: string, sep: string)
    requires k < |y| && xk == |x| + k && xnext == |x| + next
    requires MatchAt(y, k, field, sep).None? && next == k + 1
    requires Redact(x + y, xnext, field, redaction, sep) == Redact(y, next, field, redaction, sep)
    ensures Redact(x + y, xk, field, redaction, sep) == Redact(y, k, field, redaction, sep)
  {
    MatchAtShift(x, y, k, xk, field, sep);
    RedactAtNone(y, k, next, field, redaction, sep);
    RedactAtNone(x + y, xk, xnext, field, redaction, sep);
    assert (x + y)[xk] == y[k];
  }

  /** The rewrite of a suffix does not depend on what comes before it. */
  lemma {:induction false} RedactShift(x: string, y: string, k: nat, xk: nat, field: string, redaction: string, sep: string)
    requires k <= |y| && xk == |x| + k
    ensures Redact(x + y, xk, field, redaction, sep) == Redact(y, k, field, redaction, sep)
    decreases |y| - k
  {
    if k < |y| {
      var next := if MatchAt(y, k, field, sep).Some? then MatchAt(y, k, field, sep).value + |sep| else k + 1;
      var xnext := |x| + next;
      RedactShift(x, y, next, xnext, field, redaction, sep);
      if MatchAt(y, k, field, sep).Some? {
        RedactShiftMatch(x, y, k, xk, next, xnext, field, redaction, sep);
      } else {
        RedactShiftCopy(x, y, k, xk, next, xnext, field, redaction, sep);
      }
    }
  }

  /** The rewrite from the start of `y` inside `x + y` is the rewrite of `y`. */
  lemma {:induction false} RedactSuffix(x: string, y: string, n: nat, field: string, redaction: string, sep: string)
    requires n == |x|
    ensures Redact(x + y, n, field, redaction, sep) == Redact(y, 0, field, redaction, sep)
  {
    RedactShift(x, y, 0, n, field, redaction, sep);
  }

  /** Text in which no match starts is copied, and the rest is rewritten on its own. */
  lemma {:induction false} SubstituteCopy(field: string, redaction: string, x: string, y: string, sep: string)
    requires forall j :: 0 <= j < |x| ==> MatchAt(x + y, j, field, sep).None?
    ensures Substitute(field, redaction, x + y, sep) == x + Substitute(field, redaction, y, sep)
  {
    RedactSkip(x + y, 0, |x|, field, redaction, sep);
    assert (x + y)[0..|x|] == x;
    RedactSuffix(x, y, |x|, field, redaction, sep);
  }

  /** In particular where the field's first character does not occur. */
  lemma {:induction false} SubstituteCopyPlain(field: string, redaction: string, x: string, y: string, sep: string)
    requires field != [] && field[0] !in x
    ensures Substitute(field, redaction, x + y, sep) == x + Substitute(field, redaction, y, sep)
  {
    forall j | 0 <= j < |x| ensures MatchAt(x + y, j, field, sep).None? {
      assert (x + y)[j] == x[j];
      Mismatch(x + y, j, field + "=", 0);
    }
    SubstituteCopy(field, redaction, x, y, sep);
  }

  /** A leading `field=value separator`, with a non-empty value free of
      whitespace and of earlier separators, is a match. */
  lemma {:induction false} LeadingMatch(field: string, v: string, sep: string, y: string)
    requires v != [] && forall i :: 0 <= i < |v| ==> !IsSpace(v[i])
    requires forall k :: 0 < k < |v| ==> !StartsAt(v + sep, k, sep)
    ensures MatchAt(field + "=" + v + sep + y, 0, field, sep).Some?
    ensures MatchAt(field + "=" + v + sep + y, 0, field, sep).value == |field| + 1 + |v|
  {
    var m := field + "=" + v + sep + y;
    var q := |field| + 1;
    var e := q + |v|;
    assert m[0..q] == field + "=";
    forall i | q <= i < e ensures !IsSpace(m[i]) { assert m[i] == v[i - q]; }
    assert m[e..e + |sep|] == sep;
    assert m[q..e + |sep|] == v + sep;
    forall e' | q < e' < e ensures !StartsAt(m, e', sep) {
      assert !StartsAt(v + sep, e' - q, sep);
      assert m[e'..e' + |sep|] == m[q..e + |sep|][e' - q..e' - q + |sep|];
    }
    assert IsMatch(m, 0, field, sep, e);
    MatchAtIsMatch(m, 0, field, sep, e);
  }

  /** A leading `field=value separator`, with a non-empty value free of
      whitespace and of earlier separators, is rewritten, and the rest is
      rewritten on its own. */
  lemma {:induction false} SubstituteMatch(field: string, redaction: string, v: string, sep: string, y: string)
    requires v != [] && forall i :: 0 <= i < |v| ==> !IsSpace(v[i])
    requires forall k :: 0 < k < |v| ==> !StartsAt(v + sep, k, sep)
    ensures Substitute(field, redaction, field + "=" + v + sep + y, sep) ==
      field + "=" + redaction + sep + Substitute(field, redaction, y, sep)
  {
    var x := field + "=" + v + sep;
    LeadingMatch(field, v, sep, y);
    RedactAtSome(x + y, 0, |field| + 1 + |v|, |x|, field, redaction, sep);
    RedactSuffix(x, y, |x|, field, redaction, sep);
  }

  /** Applying `a` and then `b` is applying `a + b`: the fields are taken in
      list order, each on the previous output. */
  lemma {:induction false} RedactAllAppend(a: seq<string>, b: seq<string>, redaction: string, message: string, sep: string)
    ensures RedactAll(a + b, redaction, message, sep) ==
      RedactAll(b, redaction, RedactAll(a, redaction, message, sep), sep)
    decreases |b|
  {
    if b == [] {
      assert a + b == a;
    } else {
      var b' := b[..|b| - 1];
      RedactAllAppend(a, b', redaction, message, sep);
      assert (a + b)[..|a + b| - 1] == a + b';
      assert (a + b)[|a + b| - 1] == b[|b| - 1];
    }
  }

  // ---------------------------------------------------------------------
  // Examples.

  /** A character that differs from `w` rules out an occurrence of `w`. */
  lemma {:induction false} Mismatch(m: string, p: nat, w: string, i: nat)
    requires i < |w| && (p + i < |m| ==> m[p + i] != w[i])
    ensures !StartsAt(m, p, w)
  {
  }

  lemma {:induction false} Assoc(a: string, b: string, c: string, d: string)
    ensures a + (b + (c + d)) == a + b + c + d
  {
  }

  // Examples of the substitution, each on a message given as its fields.

  /** `\S+?` eats a leading separator as a value character: `password=;x;`
      becomes `password=xxx;`. */
  lemma {:induction false} SeparatorInsideValue()
    ensures Substitute("password", "xxx", "password=;x;", ";") == "password=xxx;"
  {
    var m := "password=;x;";
    Mismatch(m, 10, ";", 0);
    assert IsMatch(m, 0, "password", ";", 11);
    RedactAtMatch(m, 0, "password", "xxx", ";", 11);
    assert Redact(m, 12, "password", "xxx", ";") == [];
  }

  /** The pattern is not anchored: `password` also matches inside
      `old_password=`, and the prefix `old_` is kept. */
  lemma {:induction false} UnanchoredMatch(x: string, t: string)
    requires x == "old_" && t == "password=abc;"
    ensures Substitute("password", "xxx", x + t, ";") == x + "password=xxx;"
  {
    var f, r := "password", "xxx";
    assert t == f + "=" + "abc" + [';'];
    OneFieldRedacted(f, r, "abc", ';', t);
    assert f + "=" + r + [';'] == "password=xxx;";
    SubstituteCopyPlain(f, r, x, t, ";");
  }

  /** A last field without a trailing separator is left as it is. */
  lemma {:induction false} TrailingFieldKept()
    ensures Substitute("password", "xxx", "name=bob;password=abc", ";") == "name=bob;password=abc"
  {
    var m := "name=bob;password=abc";
    forall j | 9 <= j <= |m| ensures !StartsAt(m, j, ";") {
      Mismatch(m, j, ";", 0);
    }
    forall j | 0 <= j < 9 ensures MatchAt(m, j, "password", ";").None? {
      Mismatch(m, j, "password=", 0);
    }
    RedactSkip(m, 0, 9, "password", "xxx", ";");
    RedactNoSeparator(m, 9, "password", "xxx", ";");
    assert m[0..9] + m[9..] == m;
  }

  /** `SubstituteMatch` for a one-character separator that does not occur
      in the value after its first character. */
  lemma {:induction false} SubstituteMatchChar(field: string, redaction: string, v: string, c: char, y: string)
    requires v != [] && forall i :: 0 <= i < |v| ==> !IsSpace(v[i])
    requires forall i :: 0 < i < |v| ==> v[i] != c
    ensures Substitute(field, redaction, field + "=" + v + [c] + y, [c]) ==
      field + "=" + redaction + [c] + Substitute(field, redaction, y, [c])
  {
    forall k | 0 < k < |v| ensures !StartsAt(v + [c], k, [c]) {
      Mismatch(v + [c], k, [c], 0);
    }
    SubstituteMatch(field, redaction, v, [c], y);
  }

  /** A message that is a single field, `field=v` and a one-character
      separator, becomes `field=redaction` and the separator. */
  lemma {:induction false} OneFieldRedacted(field: string, redaction: string, v: string, c: char, t: string)
    requires v != [] && forall i :: 0 <= i < |v| ==> !IsSpace(v[i])
    requires forall i :: 0 < i < |v| ==> v[i] != c
    requires t == field + "=" + v + [c]
    ensures Substitute(field, redaction, t, [c]) == field + "=" + redaction + [c]
  {
    var none: string := [];
    assert t == t + none;
    SubstituteMatchChar(field, redaction, v, c, none);
    assert Substitute(field, redaction, none, [c]) == [];
  }

  /** The `p` of `example` does not begin `password=`, so the email field is kept. */
  lemma {:induction false} DocstringEmailKept(e: string, y: string)
    requires e == "email=mathew@example.com;"
    ensures Substitute("password", "xxx", e + y, ";") == e + Substitute("password", "xxx", y, ";")
  {
    var f, r := "password", "xxx";
    var e1, e2 := "email=mathew@exam", "le.com;";
    assert e == e1 + "p" + e2;
    Assoc(e1, "p", e2, y);
    SubstituteCopyPlain(f, r, e1, "p" + (e2 + y), ";");
    ExampleTailKept(e2, y);
    Assoc(e1, "p", e2, Substitute(f, r, y, ";"));
  }

  /** The `p` of `example` is followed by `l`, so no `password=` starts there. */
  lemma {:induction false} ExampleTailKept(e2: string, y: string)
    requires e2 == "le.com;"
    ensures Substitute("password", "xxx", "p" + (e2 + y), ";") == "p" + (e2 + Substitute("password", "xxx", y, ";"))
  {
    var f, r := "password", "xxx";
    assert ("p" + (e2 + y))[1] == 'l';
    Mismatch("p" + (e2 + y), 0, f + "=", 1);
    SubstituteCopy(f, r, "p", e2 + y, ";");
    SubstituteCopyPlain(f, r, e2, y, ";");
  }

  /** The `password` field of the docstring message is rewritten, and the
      `date_of_birth` field after it is kept. */
  lemma {:induction false} DocstringPasswordRedacted(p: string, d: string)
    requires p == "password=mattpass;" && d == "date_of_birth=12/3/2005;"
    ensures Substitute("password", "xxx", p + d, ";") == "password=xxx;" + d
  {
    var f, r := "password", "xxx";
    DocstringDateKept(d);
    assert p + d == f + "=" + "mattpass" + [';'] + d;
    SubstituteMatchChar(f, r, "mattpass", ';', d);
  }

  /** The `password` pass leaves the `date_of_birth` field alone: it holds no `p`. */
  lemma {:induction false} DocstringDateKept(d: string)
    requires d == "date_of_birth=12/3/2005;"
    ensures Substitute("password", "xxx", d, ";") == d
  {
    var none: string := [];
    assert d + none == d;
    SubstituteCopyPlain("password", "xxx", d, none, ";");
  }

  /** The docstring example, first field. */
  lemma {:induction false} DocstringPassword(n: string, e: string, p: string, d: string)
    requires n == "name=matthew;" && e == "email=mathew@example.com;"
    requires p == "password=mattpass;" && d == "date_of_birth=12/3/2005;"
    ensures Substitute("password", "xxx", n + (e + (p + d)), ";") == n + (e + ("password=xxx;" + d))
  {
    var f, r := "password", "xxx";
    DocstringPasswordRedacted(p, d);
    DocstringEmailKept(e, p + d);
    SubstituteCopyPlain(f, r, n, e + (p + d), ";");
  }

  /** The `d` of `password` does not begin `date_of_birth=`, so the redacted
      password field is kept. */
  lemma {:induction false} DocstringPasswordKept(p: string, y: string)
    requires p == "password=xxx;"
    ensures Substitute("date_of_birth", "xxx", p + y, ";") == p + Substitute("date_of_birth", "xxx", y, ";")
  {
    var f, r := "date_of_birth", "xxx";
    var p1, p2 := "passwor", "=xxx;";
    assert p + y == p1 + ("d" + (p2 + y));
    SubstituteCopyPlain(f, r, p1, "d" + (p2 + y), ";");
    assert ("d" + (p2 + y))[1] == '=';
    Mismatch("d" + (p2 + y), 0, f + "=", 1);
    SubstituteCopy(f, r, "d", p2 + y, ";");
    SubstituteCopyPlain(f, r, p2, y, ";");
  }

  /** The docstring example, second field. */
  lemma {:induction false} DocstringDateOfBirth(n: string, e: string, p: string, d: string)
    requires n == "name=matthew;" && e == "email=mathew@example.com;"
    requires p == "password=xxx;" && d == "date_of_birth=12/3/2005;"
    ensures Substitute("date_of_birth", "xxx", n + (e + (p + d)), ";") == n + (e + (p + "date_of_birth=xxx;"))
  {
    var f, r := "date_of_birth", "xxx";
    DocstringLastFields(p, d);
    SubstituteCopyPlain(f, r, e, p + d, ";");
    SubstituteCopyPlain(f, r, n, e + (p + d), ";");
  }

  /** The second pass over the last two fields: the redacted password is
      kept and the date of birth is rewritten. */
  lemma {:induction false} DocstringLastFields(p: string, d: string)
    requires p == "password=xxx;" && d == "date_of_birth=12/3/2005;"
    ensures Substitute("date_of_birth", "xxx", p + d, ";") == p + "date_of_birth=xxx;"
  {
    var f, r := "date_of_birth", "xxx";
    assert d == f + "=" + "12/3/2005" + [';'];
    OneFieldRedacted(f, r, "12/3/2005", ';', d);
    assert f + "=" + r + [';'] == "date_of_birth=xxx;";
    DocstringPasswordKept(p, d);
  }

  /** The example of the docstring, its message written field by field: the
      `password` and `date_of_birth` values become `xxx`; `name` and `email`
      are kept. */
  lemma {:induction false} DocstringExample(n: string, e: string, p: string, d: string)
    requires n == "name=matthew;" && e == "email=mathew@example.com;"
    requires p == "password=mattpass;" && d == "date_of_birth=12/3/2005;"
    ensures RedactAll(["password", "date_of_birth"], "xxx", n + e + p + d, ";") ==
      n + e + "password=xxx;" + "date_of_birth=xxx;"
  {
    var fields := ["password", "date_of_birth"];
    assert fields[..1] == ["password"] && fields[..1][..0] == [];
    DocstringPassword(n, e, p, d);
    DocstringDateOfBirth(n, e, "password=xxx;", d);
    Assoc(n, e, p, d);
    Assoc(n, e, "password=xxx;", "date_of_birth=xxx;");
  }
}
