// JavaScript strings are sequences of 16-bit code units; ids of every kind
// (hosts, segments, workers) are such strings.
module JsText {

  type CodeUnit = u: int | 0 <= u < 0x1_0000

  type JsString = seq<CodeUnit>

  // A literal of plain ASCII characters.
  function Literal(text: string): JsString
    requires forall i :: 0 <= i < |text| ==> text[i] as int < 0x80
  {
    seq(|text|, i requires 0 <= i < |text| => text[i] as int)
  }

  // The order of `Array.prototype.sort` on strings: by code unit, a prefix first.
  predicate Less(a: JsString, b: JsString) {
    if b == [] then false
    else if a == [] then true
    else a[0] < b[0] || (a[0] == b[0] && Less(a[1..], b[1..]))
  }

  // a comes first if it is a proper prefix of b, or has the smaller code unit
  // where the two first differ.
  lemma {:induction false} LessMeans(a: JsString, b: JsString)
    ensures Less(a, b) <==> exists k :: FirstDifference(a, b, k)
  {
    if a != [] && b != [] && a[0] == b[0] {
      LessMeans(a[1..], b[1..]);
      if k :| FirstDifference(a[1..], b[1..], k) {
        assert a[..k + 1] == [a[0]] + a[1..][..k] && b[..k + 1] == [b[0]] + b[1..][..k];
        assert FirstDifference(a, b, k + 1);
      }
      if k :| FirstDifference(a, b, k) {
        assert k > 0;
        assert a[1..][..k - 1] == a[..k][1..] && b[1..][..k - 1] == b[..k][1..];
        assert FirstDifference(a[1..], b[1..], k - 1);
      }
    } else if b != [] && (a == [] || a[0] < b[0]) {
      assert FirstDifference(a, b, 0);
    } else if k :| FirstDifference(a, b, k) {
      HeadsOfDifferent(a, b, k);
    }
  }

  lemma HeadsOfDifferent(a: JsString, b: JsString, k: int)
    requires FirstDifference(a, b, k)
    ensures b != [] && (a == [] || a[0] <= b[0])
  {
    if k > 0 {
      assert a[..k][0] == b[..k][0];
    }
  }

  ghost predicate FirstDifference(a: JsString, b: JsString, k: int) {
    && 0 <= k <= |a| && k <= |b| && a[..k] == b[..k]
    && k < |b| && (k < |a| ==> a[k] < b[k])
  }

  lemma {:induction false} LessIsTotal(a: JsString, b: JsString)
    ensures Less(a, b) || Less(b, a) || a == b
  {
    if a != [] && b != [] {
      LessIsTotal(a[1..], b[1..]);
      assert a == [a[0]] + a[1..] && b == [b[0]] + b[1..];
    }
  }

  lemma {:induction false} LessIsStrict(a: JsString, b: JsString)
    ensures !(Less(a, b) && Less(b, a)) && !Less(a, a)
  {
    if a != [] {
      LessIsStrict(a[1..], if b == [] then [] else b[1..]);
    }
  }

  lemma {:induction false} LessIsTransitive(a: JsString, b: JsString, c: JsString)
    requires Less(a, b) && Less(b, c)
    ensures Less(a, c)
  {
    if a != [] && a[0] == b[0] == c[0] {
      LessIsTransitive(a[1..], b[1..], c[1..]);
    }
  }

  // ---- Separated lists: `split` and `join` ----

  const DOT: CodeUnit := 0x2e

  function Split(s: JsString, separator: CodeUnit): (parts: seq<JsString>)
    ensures parts != []
  {
    if s == [] then [[]]
    else
      var rest := Split(s[1..], separator);
      if s[0] == separator then [[]] + rest else [[s[0]] + rest[0]] + rest[1..]
  }

  function Join(parts: seq<JsString>, separator: CodeUnit): JsString {
    if parts == [] then []
    else if |parts| == 1 then parts[0]
    else parts[0] + [separator] + Join(parts[1..], separator)
  }

  lemma JoinGrows(c: CodeUnit, first: JsString, tail: seq<JsString>, separator: CodeUnit)
    ensures Join([[c] + first] + tail, separator) == [c] + Join([first] + tail, separator)
  {
    assert ([[c] + first] + tail)[1..] == tail == ([first] + tail)[1..];
    if tail != [] {
      assert ([c] + first) + [separator] + Join(tail, separator) == [c] + (first + [separator] + Join(tail, separator));
    }
  }

  lemma {:induction false} JoinUndoesSplit(s: JsString, separator: CodeUnit)
    ensures Join(Split(s, separator), separator) == s
  {
    if s != [] {
      JoinUndoesSplit(s[1..], separator);
      var rest := Split(s[1..], separator);
      assert s == [s[0]] + s[1..];
      if s[0] == separator {
        assert ([[]] + rest)[1..] == rest;
      } else {
        JoinGrows(s[0], rest[0], rest[1..], separator);
        assert [rest[0]] + rest[1..] == rest;
      }
    }
  }

  lemma {:induction false} SplitWithoutSeparator(s: JsString, separator: CodeUnit)
    requires separator !in s
    ensures Split(s, separator) == [s]
  {
    if s != [] {
      SplitWithoutSeparator(s[1..], separator);
      assert [s[0]] + s[1..] == s;
    }
  }

  // Splitting distributes over a separator between two strings.
  lemma {:induction false} SplitAtSeparator(a: JsString, b: JsString, separator: CodeUnit)
    ensures Split(a + [separator] + b, separator) == Split(a, separator) + Split(b, separator)
  {
    if a == [] {
      assert (a + [separator] + b)[1..] == b;
    } else {
      SplitAtSeparator(a[1..], b, separator);
      var all := a + [separator] + b;
      assert all[1..] == a[1..] + [separator] + b && all[0] == a[0];
      if a[0] != separator {
        FirstPartGrows(a[0], Split(a[1..], separator), Split(b, separator));
      }
    }
  }

  lemma FirstPartGrows(c: CodeUnit, parts: seq<JsString>, after: seq<JsString>)
    requires parts != []
    ensures [[c] + (parts + after)[0]] + (parts + after)[1..] == [[c] + parts[0]] + parts[1..] + after
  {
  }

  lemma {:induction false} SplitUndoesJoin(parts: seq<JsString>, separator: CodeUnit)
    requires parts != [] && forall p :: p in parts ==> separator !in p
    ensures Split(Join(parts, separator), separator) == parts
  {
    SplitWithoutSeparator(parts[0], separator);
    if |parts| > 1 {
      SplitUndoesJoin(parts[1..], separator);
      SplitAtSeparator(parts[0], Join(parts[1..], separator), separator);
    }
  }
}
