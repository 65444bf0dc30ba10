/** Which client address the signup limiter charges. */
module Forwarded {
  import opened Text

  const BLANKS: set<char> := {' ', '\t'}

  // ---- specification: cut at commas, trim, drop what is empty

  /** `c` in front of the first field. */
  function Prepend(c: char, fields: seq<string>): (r: seq<string>)
    requires fields != []
    ensures |r| == |fields|
  {
    [[c] + fields[0]] + fields[1..]
  }

  /** `c` at the end of the last field. */
  function Extend(fields: seq<string>, c: char): (r: seq<string>)
    requires fields != []
    ensures |r| == |fields|
  {
    fields[..|fields| - 1] + [fields[|fields| - 1] + [c]]
  }

  function Fields(s: string): (fields: seq<string>)
    ensures fields != []
  {
    if s == "" then [""]
    else if s[0] == ',' then [""] + Fields(s[1..])
    else Prepend(s[0], Fields(s[1..]))
  }

  /** The trimmed fields that are not empty. */
  function Cleaned(fields: seq<string>): (parts: seq<string>)
    ensures forall p :: p in parts ==> p != ""
  {
    if fields == [] then []
    else
      var init := Cleaned(fields[..|fields| - 1]);
      var part := Trim(fields[|fields| - 1], BLANKS);
      if part != "" then init + [part] else init
  }

  function Parts(s: string): (parts: seq<string>) {
    Cleaned(Fields(s))
  }

  lemma {:induction false} FieldsJoin(a: string, b: string)
    ensures Fields(a + "," + b) == Fields(a) + Fields(b)
  {
    if a == "" {
      assert a + "," + b == "," + b;
    } else {
      assert a + "," + b == [a[0]] + (a[1..] + "," + b);
      FieldsJoin(a[1..], b);
    }
  }

  lemma {:induction false} PrependExtend(x: char, fields: seq<string>, c: char)
    requires fields != []
    ensures Prepend(x, Extend(fields, c)) == Extend(Prepend(x, fields), c)
    ensures Prepend(x, fields + [""]) == Prepend(x, fields) + [""]
    ensures [""] + Extend(fields, c) == Extend([""] + fields, c)
  {
    assert [x] + (fields[0] + [c]) == [x] + fields[0] + [c];
  }

  /** One more character ends a field or extends the last one. */
  lemma {:induction false} FieldsSnoc(s: string, c: char)
    ensures Fields(s + [c]) == if c == ',' then Fields(s) + [""] else Extend(Fields(s), c)
  {
    if s == "" {
      assert s + [c] == [c] && [c][1..] == "";
      assert [c] + "" == [c] && "" + [c] == [c];
      assert Fields([c]) == if c == ',' then [""] + [""] else [[c]];
      assert Extend([""], c) == [[c]];
    } else {
      hide Prepend, Extend;
      assert (s + [c])[0] == s[0] && (s + [c])[1..] == s[1..] + [c];
      FieldsSnoc(s[1..], c);
      PrependExtend(s[0], Fields(s[1..]), c);
    }
  }

  lemma {:induction false} CleanedJoin(xs: seq<string>, ys: seq<string>)
    ensures Cleaned(xs + ys) == Cleaned(xs) + Cleaned(ys)
  {
    hide Trim;
    if ys == [] {
      assert xs + ys == xs;
    } else {
      var init := ys[..|ys| - 1];
      CleanedJoin(xs, init);
      assert (xs + ys)[..|xs + ys| - 1] == xs + init;
    }
  }

  /** HOMOMORPHISM: a comma separates the parts before it from those after. */
  lemma {:induction false} PartsJoin(a: string, b: string)
    ensures Parts(a + "," + b) == Parts(a) + Parts(b)
  {
    FieldsJoin(a, b);
    CleanedJoin(Fields(a), Fields(b));
  }

  lemma {:induction false} FieldsHoldNoComma(s: string, i: nat)
    requires i < |Fields(s)|
    ensures ',' !in Fields(s)[i]
  {
    if s != "" {
      if s[0] != ',' || i > 0 {
        FieldsHoldNoComma(s[1..], if s[0] == ',' then i - 1 else i);
      }
    }
  }

  lemma {:induction false} OriginOfPart(fields: seq<string>, p: string) returns (i: nat)
    requires p in Cleaned(fields)
    ensures i < |fields| && p == Trim(fields[i], BLANKS)
  {
    hide Trim;
    var n := |fields| - 1;
    if p == Trim(fields[n], BLANKS) {
      i := n;
    } else {
      i := OriginOfPart(fields[..n], p);
    }
  }

  /** Every part is nonempty, holds no comma, and neither starts nor ends with
      a blank. */
  lemma {:induction false} PartsAreClean(s: string, p: string)
    requires p in Parts(s)
    ensures p != "" && ',' !in p && p[0] !in {' ', '\t'} && p[|p| - 1] !in {' ', '\t'}
  {
    hide Trim, Fields;
    var i := OriginOfPart(Fields(s), p);
    FieldsHoldNoComma(s, i);
    var a, b := TrimCutsOnlyBlanks(Fields(s)[i], BLANKS);
  }

  // ---- the loops

  lemma {:induction false} RightStep(r: string)
    requires r != "" && r[|r| - 1] in BLANKS
    ensures TrimRight(r, BLANKS) == TrimRight(r[..|r| - 1], BLANKS)
  {
  }

  method TrimSpace(s: string) returns (r: string)
    ensures r == Trim(s, BLANKS)
    ensures r != "" ==> r[0] !in {' ', '\t'} && r[|r| - 1] !in {' ', '\t'}
  {
    r := s;
    while |r| > 0 && (r[0] == ' ' || r[0] == '\t')
      invariant TrimLeft(r, BLANKS) == TrimLeft(s, BLANKS)
      decreases |r|
    {
      r := r[1..];
    }
    assert r == TrimLeft(s, BLANKS);
    while |r| > 0 && (r[|r| - 1] == ' ' || r[|r| - 1] == '\t')
      invariant TrimRight(r, BLANKS) == Trim(s, BLANKS)
      decreases |r|
    {
      RightStep(r);
      r := r[..|r| - 1];
    }
  }

  lemma {:induction false} CleanedSnoc(fields: seq<string>, f: string)
    ensures Cleaned(fields + [f])
         == Cleaned(fields) + if Trim(f, BLANKS) != "" then [Trim(f, BLANKS)] else []
  {
    hide Trim;
    assert (fields + [f])[..|fields|] == fields;
  }

  /** At position i the fields before the current one are `done`. */
  ghost predicate Scanned(s: string, done: seq<string>, start: int, i: int)
  {
    0 <= start <= i <= |s| && Fields(s[..i]) == done + [s[start..i]]
  }

  lemma {:induction false} ScanOne(s: string, done: seq<string>, start: int, i: int)
    requires Scanned(s, done, start, i) && i < |s|
    ensures if s[i] == ',' then Scanned(s, done + [s[start..i]], i + 1, i + 1) else Scanned(s, done, start, i + 1)
  {
    hide Fields;
    assert s[..i + 1] == s[..i] + [s[i]];
    FieldsSnoc(s[..i], s[i]);
    assert s[start..i + 1] == s[start..i] + [s[i]];
    assert s[i + 1..i + 1] == "";
  }

  method SplitAndTrim(s: string) returns (out: seq<string>)
    ensures out == Parts(s)
  {
    hide Fields, Cleaned, Trim, Scanned;
    out := [];
    var start := 0;
    ghost var done: seq<string> := [];
    ScanStarts(s);
    var i := 0;
    while i <= |s|
      invariant 0 <= i <= |s| + 1 && out == Cleaned(done)
      invariant i <= |s| ==> 0 <= start <= i && Scanned(s, done, start, i)
      invariant i == |s| + 1 ==> done == Fields(s)
      decreases |s| - i
    {
      if i < |s| {
        ScanOne(s, done, start, i);
      } else {
        ScanEnds(s, done, start);
      }
      if i == |s| || s[i] == ',' {
        var part := TrimSpace(s[start..i]);
        CleanedSnoc(done, s[start..i]);
        if part != "" {
          out := out + [part];
        }
        done := done + [s[start..i]];
        start := i + 1;
      }
      i := i + 1;
    }
  }

  lemma {:induction false} ScanStarts(s: string)
    ensures Scanned(s, [], 0, 0) && Cleaned([]) == []
  {
    assert s[..0] == "" && s[0..0] == "";
  }

  lemma {:induction false} ScanEnds(s: string, done: seq<string>, start: int)
    requires Scanned(s, done, start, |s|)
    ensures Fields(s) == done + [s[start..|s|]]
  {
    assert s[..|s|] == s;
  }

  /** The charged address: behind a trusted proxy the last nonempty part of the
      forwarded header, otherwise the connection's host; `host` is None when
      the remote address does not split into host and port. */
  function Client(trustForwarded: bool, header: string, remoteAddr: string, host: Option<string>): (client: string) {
    var parts := Parts(header);
    if trustForwarded && header != "" && parts != [] then parts[|parts| - 1]
    else if host.None? then remoteAddr else host.value
  }

  method ClientOf(
    trustForwarded: bool, header: string, remoteAddr: string, host: Option<string>) returns (client: string)
    ensures client == Client(trustForwarded, header, remoteAddr, host)
    ensures !trustForwarded || Separators(header) ==> client == if host.Some? then host.value else remoteAddr
  {
    hide Parts;
    if !trustForwarded || Separators(header) {
      ConnectionIsCharged(trustForwarded, header, remoteAddr, host);
    }
    if trustForwarded {
      if header != "" {
        var parts := SplitAndTrim(header);
        var n := |parts|;
        if n > 0 {
          return parts[n - 1];
        }
      }
    }
    if host.None? {
      return remoteAddr;
    }
    return host.value;
  }

  /** What a caller puts before the last comma of a trusted header does not
      matter, as long as the last hop is not blank: the charged address is that
      hop, trimmed.  Without trust the header does not matter at all. */
  lemma {:induction false} LastHopDecides(forged: string, hop: string, remoteAddr: string, host: Option<string>)
    requires ',' !in hop && Trim(hop, BLANKS) != ""
    ensures Client(true, forged + "," + hop, remoteAddr, host) == Trim(hop, BLANKS)
    ensures Client(true, hop, remoteAddr, host) == Trim(hop, BLANKS)
    ensures Client(false, forged + "," + hop, remoteAddr, host) == Client(false, "", remoteAddr, host)
  {
    hide Trim, Fields, Cleaned;
    PartsJoin(forged, hop);
    SingleField(hop);
    CleanedSnoc([], hop);
    ScanStarts(hop);
    assert [] + [hop] == [hop];
    assert forged + "," + hop != "" && hop != "" by { BlankIsTrimmed(); }
  }

  // ---- every header, in its own characters

  predicate Separators(s: string) {
    forall i :: 0 <= i < |s| ==> s[i] == ',' || s[i] == ' ' || s[i] == '\t'
  }

  lemma {:induction false} BlankFields(s: string, i: nat)
    requires Separators(s) && i < |Fields(s)|
    ensures AllIn(Fields(s)[i], BLANKS)
  {
    if s != "" {
      if s[0] == ',' {
        if i > 0 {
          BlankFields(s[1..], i - 1);
        }
      } else {
        BlankFields(s[1..], i);
      }
    }
  }

  lemma {:induction false} NothingCleaned(fields: seq<string>)
    requires forall i :: 0 <= i < |fields| ==> AllIn(fields[i], BLANKS)
    ensures Cleaned(fields) == []
  {
    hide Trim;
    if fields != [] {
      NothingCleaned(fields[..|fields| - 1]);
      TrimsToNothing(fields[|fields| - 1], BLANKS);
    }
  }

  /** A header of commas and blanks names nobody. */
  lemma {:induction false} SeparatorsNameNobody(s: string)
    requires Separators(s)
    ensures Parts(s) == []
  {
    hide Fields, Cleaned;
    forall i | 0 <= i < |Fields(s)| ensures AllIn(Fields(s)[i], BLANKS) {
      BlankFields(s, i);
    }
    NothingCleaned(Fields(s));
  }

  /** One field between commas, with blanks around it. */
  lemma {:induction false} OnePart(left: string, hop: string, right: string)
    requires AllIn(left, BLANKS) && AllIn(right, BLANKS) && hop != "" && ',' !in hop
    requires hop[0] !in BLANKS && hop[|hop| - 1] !in BLANKS
    ensures Parts(left + hop + right) == [hop]
  {
    hide Trim, Fields, Cleaned;
    var field := left + hop + right;
    forall i | 0 <= i < |field| ensures field[i] != ',' {
      if i < |left| {
        assert field[i] == left[i];
      } else if i < |left| + |hop| {
        assert field[i] == hop[i - |left|] && hop[i - |left|] in hop;
      } else {
        assert field[i] == right[i - |left| - |hop|];
      }
    }
    SingleField(field);
    TrimAround(left, hop, right, BLANKS);
    CleanedSnoc([], field);
    ScanStarts(field);
    assert [] + [field] == [field] && [] + [hop] == [hop];
  }

  /** COMPLETE: every trusted header that is not all commas and blanks has a last hop,
      and that hop is charged, whatever stands before it. */
  lemma {:induction false} LastHopIsCharged(
    front: string, left: string, hop: string, right: string, tail: string, remoteAddr: string, host: Option<string>)
    requires AllIn(left, {' ', '\t'}) && AllIn(right, {' ', '\t'}) && hop != "" && ',' !in hop
    requires hop[0] !in {' ', '\t'} && hop[|hop| - 1] !in {' ', '\t'}
    requires Separators(tail)
    ensures Client(true, front + "," + (left + hop + right + "," + tail), remoteAddr, host) == hop
    ensures Client(true, front + "," + (left + hop + right), remoteAddr, host) == hop
    ensures Client(true, left + hop + right + "," + tail, remoteAddr, host) == hop
    ensures Client(true, left + hop + right, remoteAddr, host) == hop
  {
    hide Trim, Fields, Cleaned, Parts;
    OnePart(left, hop, right);
    SeparatorsNameNobody(tail);
    PartsJoin(left + hop + right, tail);
    PartsJoin(front, left + hop + right + "," + tail);
    PartsJoin(front, left + hop + right);
    assert [hop] + [] == [hop];
    EndsWith(Parts(front), hop);
  }

  lemma {:induction false} EndsWith(parts: seq<string>, hop: string)
    ensures parts + [hop] != [] && (parts + [hop])[|parts + [hop]| - 1] == hop
  {
  }

  /** Without trust, and for a header of commas and blanks, the connection decides:
      its host, or the whole remote address when that does not split. */
  lemma {:induction false} ConnectionIsCharged(
    trustForwarded: bool, header: string, remoteAddr: string, host: Option<string>)
    requires !trustForwarded || Separators(header)
    ensures Client(trustForwarded, header, remoteAddr, host) == if host.Some? then host.value else remoteAddr
  {
    hide Trim, Fields, Cleaned;
    if Separators(header) {
      SeparatorsNameNobody(header);
    }
  }

  lemma {:induction false} BlankIsTrimmed()
    ensures Trim("", BLANKS) == ""
  {
  }

  lemma {:induction false} SingleField(s: string)
    requires ',' !in s
    ensures Fields(s) == [s]
  {
    if s != "" {
      SingleField(s[1..]);
      assert s == [s[0]] + s[1..];
    }
  }
}
