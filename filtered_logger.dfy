/** `filter_datum` of the personal-data logger (0x00): every
    `field=<value><separator>` of a log line becomes
    `field=<redaction><separator>`, one field after another.

    Each pass is `re.sub(field + "=.*?" + separator, repl, message)` with
    field and separator taken literally: a match is `field=` followed by the
    nearest separator that can be reached without crossing a newline (`.`
    does not match `"\n"`), and the scan resumes after each match. */
module FilteredLogger {
  import opened Values
  import opened Strings

  /** Where the lazy `.*?` stops: the first index from `from` on at which
      `sep` occurs, provided no newline lies between; `None` when a newline
      or the end of the line comes first. */
  function LazyEnd(s: string, from: nat, sep: string): (r: Option<nat>)
    requires from <= |s|
    ensures r.Some? ==> from <= r.value <= |s| && OccursAt(s, sep, r.value) && '\n' !in s[from..r.value]
    ensures r.Some? ==> forall k :: from <= k < r.value ==> !OccursAt(s, sep, k)
    ensures r.None? ==> forall k :: from <= k <= |s| && '\n' !in s[from..k] ==> !OccursAt(s, sep, k)
    decreases |s| - from
  {
    if OccursAt(s, sep, from) then Some(from)
    else if from < |s| && s[from] != '\n' then
      var r := LazyEnd(s, from + 1, sep);
      assert forall k :: from + 1 <= k <= |s| ==> s[from..k] == [s[from]] + s[from + 1..k];
      r
    else None
  }

  /** The end of a match of `field=.*?sep` starting at index 0 of `s`, if
      there is one. */
  function MatchEnd(s: string, field: string, sep: string): (r: Option<nat>)
    ensures r.Some? ==> StartsWith(s, field + "=") && |field| + 1 + |sep| <= r.value <= |s|
    ensures r.Some? ==> |field| + 1 <= |s| && LazyEnd(s, |field| + 1, sep) == Some(r.value - |sep|)
    ensures r.None? <==> !StartsWith(s, field + "=") || LazyEnd(s, |field| + 1, sep).None?
  {
    if StartsWith(s, field + "=") then
      match LazyEnd(s, |field| + 1, sep)
      case None => None
      case Some(k) => Some(k + |sep|)
    else None
  }

  /** One pass: `re.sub(field + "=.*?" + sep, field + "=" + redaction + sep, s)`. */
  function Sub(s: string, field: string, redaction: string, sep: string): (r: string)
    ensures forall c :: c in r ==> c in s || c in redaction
    decreases |s|
  {
    if s == [] then []
    else
      match MatchEnd(s, field, sep)
      case Some(e) => field + "=" + redaction + sep + Sub(s[e..], field, redaction, sep)
      case None => [s[0]] + Sub(s[1..], field, redaction, sep)
  }

  /** `filter_datum` as a fold: the passes of `fields`, in list order, each
      applied to the output of the previous one. */
  function FilterAll(fields: seq<string>, redaction: string, message: string, sep: string): (r: string)
    ensures forall c :: c in r ==> c in message || c in redaction
    decreases |fields|
  {
    if fields == [] then message
    else Sub(FilterAll(fields[..|fields| - 1], redaction, message, sep), fields[|fields| - 1], redaction, sep)
  }

  /** An occurrence of `pat` in `s[1..]` is one in `s`, one place later. */
  lemma OccursInTail(s: string, pat: string, k: int)
    requires |s| > 0 && OccursAt(s[1..], pat, k)
    ensures OccursAt(s, pat, k + 1)
  {
    assert s[1..][k..k + |pat|] == s[k + 1..k + 1 + |pat|];
  }

  /** A line without `field=` passes through its field's pass unchanged. */
  lemma {:induction false} SubNoKey(s: string, field: string, redaction: string, sep: string)
    requires !Contains(s, field + "=")
    ensures Sub(s, field, redaction, sep) == s
    decreases |s|
  {
    if s != [] {
      assert !OccursAt(s, field + "=", 0);
      forall k | 0 <= k <= |s[1..]| && OccursAt(s[1..], field + "=", k) ensures false {
        OccursInTail(s, field + "=", k);
      }
      SubNoKey(s[1..], field, redaction, sep);
    }
  }

  /** Where no match starts (no `field=` there, or no separator reachable
      after it), one character is copied and the scan moves on by one. */
  lemma SubCopiesHead(s: string, field: string, redaction: string, sep: string)
    requires s != [] && MatchEnd(s, field, sep).None?
    ensures Sub(s, field, redaction, sep) == [s[0]] + Sub(s[1..], field, redaction, sep)
  {
  }

  /** With no separator from index `m` on, no match starts at index 0. */
  lemma NoSeparatorNoMatch(s: string, field: string, sep: string, m: nat)
    requires m <= |field| + 1
    requires forall k :: m <= k <= |s| ==> !OccursAt(s, sep, k)
    ensures MatchEnd(s, field, sep).None?
  {
    if StartsWith(s, field + "=") {
      var r := LazyEnd(s, |field| + 1, sep);
      assert r.Some? ==> OccursAt(s, sep, r.value);
    }
  }

  /** No separator starting at or after index `m` (with `m` at most where a
      value would begin) means no redaction: every `field=` is left as it
      is, whatever separators come before it. */
  lemma {:induction false} SubNoSeparator(s: string, field: string, redaction: string, sep: string, m: nat)
    requires m <= |field| + 1
    requires forall k :: m <= k <= |s| ==> !OccursAt(s, sep, k)
    ensures Sub(s, field, redaction, sep) == s
    decreases |s|
  {
    if s != [] {
      NoSeparatorNoMatch(s, field, sep, m);
      SubCopiesHead(s, field, redaction, sep);
      var m' := if m > 0 then m - 1 else 0;
      forall k | m' <= k <= |s[1..]| ensures !OccursAt(s[1..], sep, k) {
        if OccursAt(s[1..], sep, k) {
          OccursInTail(s, sep, k);
        }
      }
      SubNoSeparator(s[1..], field, redaction, sep, m');
    }
  }

  /** A `field=` whose next separator lies beyond a newline is not matched:
      `.` does not cross the newline, so the scan moves on by one. */
  lemma NewlineBeforeSeparator(s: string, field: string, redaction: string, sep: string, n: nat)
    requires StartsWith(s, field + "=") && |field| + 1 <= n < |s| && s[n] == '\n'
    requires forall k :: |field| + 1 <= k <= n ==> !OccursAt(s, sep, k)
    ensures Sub(s, field, redaction, sep) == [s[0]] + Sub(s[1..], field, redaction, sep)
  {
    SubCopiesHead(s, field, redaction, sep);
  }

  /** No `key` starting in `a` means none starting in `a[1..]` either. */
  lemma NoKeyInTail(a: string, b: string, key: string)
    requires a != []
    requires forall p :: 0 <= p < |a| ==> !OccursAt(a + b, key, p)
    ensures (a + b)[1..] == a[1..] + b
    ensures forall p :: 0 <= p < |a[1..]| ==> !OccursAt(a[1..] + b, key, p)
  {
    assert (a + b)[1..] == a[1..] + b;
    forall p | 0 <= p < |a[1..]| ensures !OccursAt(a[1..] + b, key, p) {
      if OccursAt(a[1..] + b, key, p) {
        OccursInTail(a + b, key, p);
      }
    }
  }

  /** Text before the first `field=` is copied through in order. */
  lemma {:induction false} SubKeepsPrefix(a: string, b: string, field: string, redaction: string, sep: string)
    requires forall p :: 0 <= p < |a| ==> !OccursAt(a + b, field + "=", p)
    ensures Sub(a + b, field, redaction, sep) == a + Sub(b, field, redaction, sep)
    decreases |a|
  {
    if a != [] {
      var tail := a[1..];
      NoKeyInTail(a, b, field + "=");
      assert !OccursAt(a + b, field + "=", 0);
      SubCopiesHead(a + b, field, redaction, sep);
      SubKeepsPrefix(tail, b, field, redaction, sep);
      var rest := Sub(b, field, redaction, sep);
      assert (a + b)[0] == a[0];
      assert Sub(a + b, field, redaction, sep) == [a[0]] + (tail + rest);
      assert [a[0]] + (tail + rest) == a + rest by {
        assert a == [a[0]] + tail;
      }
    } else {
      assert a + b == b;
    }
  }

  /** `field=v<sep>` at the head of the line, with `v` free of newlines and
      of any earlier separator, becomes `field=<redaction><sep>`, and the
      scan goes on with the rest. */
  lemma SubRedactsValue(field: string, v: string, sep: string, rest: string, redaction: string)
    requires '\n' !in v
    requires forall k :: 0 <= k < |v| ==> !OccursAt(v + sep, sep, k)
    ensures Sub(field + "=" + v + sep + rest, field, redaction, sep) ==
      field + "=" + redaction + sep + Sub(rest, field, redaction, sep)
  {
    var s := field + "=" + v + sep + rest;
    var q := |field| + 1;
    assert s[..q] == field + "=";
    assert s[q..q + |v|] == v;
    assert OccursAt(s, sep, q + |v|) by {
      assert s[q + |v|..q + |v| + |sep|] == sep;
    }
    var w := s[q..q + |v| + |sep|];
    assert w == v + sep;
    forall k | q <= k < q + |v| ensures !OccursAt(s, sep, k) {
      assert w[k - q..k - q + |sep|] == s[k..k + |sep|];
      assert !OccursAt(w, sep, k - q);
    }
    assert LazyEnd(s, q, sep) == Some(q + |v|);
    assert s[q + |v| + |sep|..] == rest;
  }

  /** Applying `fs1` then `fs2` is applying `fs1 + fs2`: the passes compose
      in list order. */
  lemma {:induction false} FilterAllAppend(fs1: seq<string>, fs2: seq<string>, redaction: string, message: string, sep: string)
    ensures FilterAll(fs1 + fs2, redaction, message, sep) ==
      FilterAll(fs2, redaction, FilterAll(fs1, redaction, message, sep), sep)
    decreases |fs2|
  {
    if fs2 == [] {
      assert fs1 + fs2 == fs1;
    } else {
      var init := fs2[..|fs2| - 1];
      FilterAllAppend(fs1, init, redaction, message, sep);
      assert (fs1 + fs2)[..|fs1 + fs2| - 1] == fs1 + init;
      assert (fs1 + fs2)[|fs1 + fs2| - 1] == fs2[|fs2| - 1];
    }
  }

  /** A field list none of whose `field=` keys occurs leaves the line as it
      is; in particular the empty list does. */
  lemma {:induction false} FilterAllNoKeys(fields: seq<string>, redaction: string, message: string, sep: string)
    requires forall i :: 0 <= i < |fields| ==> !Contains(message, fields[i] + "=")
    ensures FilterAll(fields, redaction, message, sep) == message
    decreases |fields|
  {
    if fields != [] {
      var init := fields[..|fields| - 1];
      assert forall i :: 0 <= i < |init| ==> init[i] == fields[i];
      FilterAllNoKeys(init, redaction, message, sep);
      SubNoKey(message, fields[|fields| - 1], redaction, sep);
    }
  }

  /** `filter_datum`: the loop reassigning `message` once per field. */
  method FilterDatum(fields: seq<string>, redaction: string, message: string, separator: string) returns (r: string)
    ensures r == FilterAll(fields, redaction, message, separator)
  {
    r := message;
    for i := 0 to |fields|
      invariant r == FilterAll(fields[..i], redaction, message, separator)
    {
      assert fields[..i + 1][..i] == fields[..i];
      r := Sub(r, fields[i], redaction, separator);
    }
    assert fields[..|fields|] == fields;
  }
}
