/**
 * The .NET string operations the providers rely on: `Trim`, `ToUpperInvariant`,
 * `ToLowerInvariant`, `IsNullOrWhiteSpace`, `Contains`, `Split` with
 * `RemoveEmptyEntries | TrimEntries`, `string.Join` and LINQ's `Distinct`.
 * Case mapping is modelled on ASCII letters only.
 */
module Text {

  /** `char.IsWhiteSpace`: the Unicode space separators, line and paragraph
      separators, U+0009..U+000D, U+0085 and U+00A0. */
  predicate IsWhiteSpace(c: char) {
    c == ' ' || ('\t' <= c <= '\r') || c == '\U{85}' || c == '\U{A0}' || c == '\U{1680}'
    || ('\U{2000}' <= c <= '\U{200A}') || c == '\U{2028}' || c == '\U{2029}'
    || c == '\U{202F}' || c == '\U{205F}' || c == '\U{3000}'
  }

  /** `string.IsNullOrWhiteSpace` (a null string is modelled as ""). */
  predicate IsNullOrWhiteSpace(s: string) {
    forall i :: 0 <= i < |s| ==> IsWhiteSpace(s[i])
  }

  /** `TrimStart()`: drops the leading white space, and only that. */
  function TrimStart(s: string): (r: string)
    ensures |r| <= |s| && r == s[|s| - |r|..]
    ensures forall i :: 0 <= i < |s| - |r| ==> IsWhiteSpace(s[i])
    ensures |r| > 0 ==> !IsWhiteSpace(r[0])
  {
    if |s| > 0 && IsWhiteSpace(s[0]) then TrimStart(s[1..]) else s
  }

  /** `TrimEnd()`: drops the trailing white space, and only that. */
  function TrimEnd(s: string): (r: string)
    ensures |r| <= |s| && r == s[..|r|]
    ensures forall i :: |r| <= i < |s| ==> IsWhiteSpace(s[i])
    ensures |r| > 0 ==> !IsWhiteSpace(r[|r| - 1])
  {
    if |s| > 0 && IsWhiteSpace(s[|s| - 1]) then TrimEnd(s[..|s| - 1]) else s
  }

  /** `Trim()`: drops the leading and the trailing white space. */
  function Trim(s: string): string {
    TrimEnd(TrimStart(s))
  }

  /** What `Trim` keeps is a contiguous piece of `s` that neither starts nor
      ends in white space, and what it drops is white space only. */
  lemma TrimFacts(s: string)
    ensures var r := Trim(s);
            && LeadingWhiteSpace(s) + |r| <= |s|
            && r == s[LeadingWhiteSpace(s)..LeadingWhiteSpace(s) + |r|]
            && (forall i :: 0 <= i < LeadingWhiteSpace(s) ==> IsWhiteSpace(s[i]))
            && (forall i :: LeadingWhiteSpace(s) + |r| <= i < |s| ==> IsWhiteSpace(s[i]))
            && (|r| > 0 ==> !IsWhiteSpace(r[0]) && !IsWhiteSpace(r[|r| - 1]))
  {
    var t := TrimStart(s);
    var r := TrimEnd(t);
    assert r == s[|s| - |t|..|s| - |t| + |r|];
  }

  /** How many white-space characters `Trim` drops at the front. */
  function LeadingWhiteSpace(s: string): nat {
    |s| - |TrimStart(s)|
  }

  /** After trimming, "blank" and "empty" coincide. */
  lemma TrimmedBlankIsEmpty(s: string)
    ensures IsNullOrWhiteSpace(Trim(s)) <==> Trim(s) == ""
    ensures Trim(s) == "" <==> IsNullOrWhiteSpace(s)
  {
    TrimFacts(s);
    var r := Trim(s);
    if r != "" {
      assert !IsWhiteSpace(r[0]);
      assert s[LeadingWhiteSpace(s)] == r[0];
    }
  }

  function UpperChar(c: char): char {
    if 'a' <= c <= 'z' then (c as int - 32) as char else c
  }

  lemma UpperCharKeepsWhiteSpace(c: char)
    ensures IsWhiteSpace(UpperChar(c)) <==> IsWhiteSpace(c)
  {
  }

  function LowerChar(c: char): char {
    if 'A' <= c <= 'Z' then (c as int + 32) as char else c
  }

  /** `ToUpperInvariant()` on ASCII letters; every other character is kept. */
  function ToUpperInvariant(s: string): string
  {
    seq(|s|, i requires 0 <= i < |s| => UpperChar(s[i]))
  }

  /** `ToLowerInvariant()` on ASCII letters; every other character is kept. */
  function ToLowerInvariant(s: string): (r: string)
    ensures |r| == |s|
    ensures forall i :: 0 <= i < |s| ==> r[i] == LowerChar(s[i])
  {
    seq(|s|, i requires 0 <= i < |s| => LowerChar(s[i]))
  }

  /** A string all of whose letters are already upper case. */
  predicate IsUpper(s: string) {
    forall i :: 0 <= i < |s| ==> !('a' <= s[i] <= 'z')
  }

  /** Upper-casing yields an upper-case string, is idempotent, and leaves white
      space (hence blankness) alone. */
  lemma UpperCaseFacts(s: string)
    ensures IsUpper(ToUpperInvariant(s))
    ensures ToUpperInvariant(ToUpperInvariant(s)) == ToUpperInvariant(s)
    ensures IsNullOrWhiteSpace(ToUpperInvariant(s)) <==> IsNullOrWhiteSpace(s)
    ensures IsUpper(s) ==> ToUpperInvariant(s) == s
  {
    var u := ToUpperInvariant(s);
    assert |u| == |s|;
    assert forall i :: 0 <= i < |s| ==> u[i] == UpperChar(s[i]);
    forall i | 0 <= i < |s| ensures IsWhiteSpace(u[i]) <==> IsWhiteSpace(s[i]) {
      UpperCharKeepsWhiteSpace(s[i]);
    }
    assert ToUpperInvariant(u) == u;
  }

  /** `StringComparison.OrdinalIgnoreCase` equality (ASCII case folding). */
  predicate EqualsIgnoreCase(a: string, b: string) {
    ToUpperInvariant(a) == ToUpperInvariant(b)
  }

  /** The normalisation every provider applies to a currency code:
      `(code ?? "").Trim().ToUpperInvariant()`. Its properties are stated by
      `NormalizeCodeFacts`, so that callers pay for them only when they ask. */
  function NormalizeCode(s: string): string {
    ToUpperInvariant(Trim(s))
  }

  /** A normalised code is upper case, it is blank exactly when it is empty,
      and that happens exactly when the raw code was blank. */
  lemma NormalizeCodeFacts(s: string)
    ensures IsUpper(NormalizeCode(s))
    ensures IsNullOrWhiteSpace(NormalizeCode(s)) <==> NormalizeCode(s) == ""
    ensures NormalizeCode(s) == "" <==> IsNullOrWhiteSpace(s)
  {
    TrimmedBlankIsEmpty(s);
    UpperCaseFacts(Trim(s));
  }

  /** A code without surrounding white space is only upper-cased. */
  lemma NormalizeUnpadded(s: string)
    requires |s| > 0 ==> !IsWhiteSpace(s[0]) && !IsWhiteSpace(s[|s| - 1])
    ensures Trim(s) == s
    ensures NormalizeCode(s) == ToUpperInvariant(s)
  {
    assert TrimStart(s) == s;
    assert TrimEnd(s) == s;
  }

  /** A code already written in upper-case letters is its own
      normalisation. */
  lemma NormalizeLetters(s: string)
    requires forall i :: 0 <= i < |s| ==> 'A' <= s[i] <= 'Z'
    ensures NormalizeCode(s) == s
  {
    NormalizeUnpadded(s);
    UpperCaseFacts(s);
  }

  /** A normalised code neither starts nor ends in white space. */
  lemma NormalizedCodeIsTrimmed(s: string)
    ensures var r := NormalizeCode(s);
            |r| > 0 ==> !IsWhiteSpace(r[0]) && !IsWhiteSpace(r[|r| - 1])
  {
    TrimFacts(s);
    var t := Trim(s);
    var r := NormalizeCode(s);
    if |r| > 0 {
      assert r[0] == UpperChar(t[0]) && r[|r| - 1] == UpperChar(t[|t| - 1]);
      UpperCharKeepsWhiteSpace(t[0]);
      UpperCharKeepsWhiteSpace(t[|t| - 1]);
    }
  }

  /** Two upper-case strings are equal ignoring case only when they are
      equal. */
  lemma UpperEqualsIgnoreCase(a: string, b: string)
    requires IsUpper(a) && IsUpper(b)
    ensures EqualsIgnoreCase(a, b) <==> a == b
  {
    UpperCaseFacts(a);
    UpperCaseFacts(b);
  }

  /** `s.Contains(sub)` (ordinal). */
  predicate Contains(s: string, sub: string) {
    |sub| <= |s| && (s[..|sub|] == sub || Contains(s[1..], sub))
  }

  // ---------------------------------------------------------------------
  // Split / Join

  /** `s.Split(sep)` with no options: the pieces between separators, empty
      pieces included. */
  function Split(s: string, sep: char): (parts: seq<string>)
    ensures |parts| >= 1
    ensures forall p :: p in parts ==> sep !in p
  {
    if s == [] then [""]
    else
      var rest := Split(s[1..], sep);
      if s[0] == sep then [""] + rest else [[s[0]] + rest[0]] + rest[1..]
  }

  /** `string.Join(sep, parts)`. */
  function Join(parts: seq<string>, sep: char): string {
    if |parts| == 0 then ""
    else if |parts| == 1 then parts[0]
    else parts[0] + [sep] + Join(parts[1..], sep)
  }

  /** Joining the pieces of a split gives back the original string. */
  lemma {:induction false} JoinSplit(s: string, sep: char)
    ensures Join(Split(s, sep), sep) == s
  {
    if s != [] {
      var rest := Split(s[1..], sep);
      JoinSplit(s[1..], sep);
      if s[0] == sep {
        assert Split(s, sep) == [""] + rest;
        assert ([""] + rest)[1..] == rest;
      } else {
        var parts := Split(s, sep);
        assert parts == [[s[0]] + rest[0]] + rest[1..];
        if |rest| == 1 {
          assert Join(rest, sep) == rest[0];
        } else {
          assert Join(rest, sep) == rest[0] + [sep] + Join(rest[1..], sep);
          assert parts[1..] == rest[1..];
        }
      }
    }
  }

  /** Splitting a join of separator-free pieces gives back the pieces. */
  lemma {:induction false} SplitJoin(parts: seq<string>, sep: char)
    requires |parts| >= 1
    requires forall p :: p in parts ==> sep !in p
    ensures Split(Join(parts, sep), sep) == parts
  {
    if |parts| == 1 {
      SplitNoSep(parts[0], sep);
    } else {
      SplitJoin(parts[1..], sep);
      SplitPrefix(parts[0], Join(parts[1..], sep), sep);
      assert Join(parts, sep) == parts[0] + ([sep] + Join(parts[1..], sep));
      assert [parts[0]] + parts[1..] == parts;
    }
  }

  lemma {:induction false} SplitNoSep(s: string, sep: char)
    requires sep !in s
    ensures Split(s, sep) == [s]
  {
    if s != [] {
      SplitNoSep(s[1..], sep);
      assert [s[0]] + s[1..] == s;
    }
  }

  /** A separator-free prefix becomes the first piece of the split. */
  lemma {:induction false} SplitPrefix(p: string, t: string, sep: char)
    requires sep !in p
    ensures Split(p + [sep] + t, sep) == [p] + Split(t, sep)
  {
    if p == [] {
      assert [] + [sep] + t == [sep] + t;
      assert ([sep] + t)[1..] == t;
    } else {
      SplitPrefix(p[1..], t, sep);
      var s := p + [sep] + t;
      assert s[0] == p[0] && s[1..] == p[1..] + [sep] + t;
      assert [p[0]] + p[1..] == p;
    }
  }

  // ---------------------------------------------------------------------
  // Split options and Distinct

  /** `TrimEntries`: every piece trimmed. */
  function TrimAll(parts: seq<string>): (r: seq<string>)
    ensures |r| == |parts|
    ensures forall i :: 0 <= i < |parts| ==> r[i] == Trim(parts[i])
  {
    seq(|parts|, i requires 0 <= i < |parts| => Trim(parts[i]))
  }

  /** `RemoveEmptyEntries`: the non-empty pieces, order kept. */
  function RemoveEmpty(parts: seq<string>): (r: seq<string>)
    ensures forall p :: p in r <==> p in parts && p != ""
    ensures |parts| > 0 && parts[0] != "" ==> |r| > 0 && r[0] == parts[0]
    ensures |parts| > 0 && parts[0] == "" ==> r == RemoveEmpty(parts[1..])
  {
    if |parts| == 0 then []
    else if parts[0] == "" then RemoveEmpty(parts[1..])
    else [parts[0]] + RemoveEmpty(parts[1..])
  }

  /** The first piece kept is the first non-empty one. */
  lemma {:induction false} RemoveEmptyFirst(parts: seq<string>, k: nat)
    requires k < |parts| && parts[k] != ""
    requires forall j :: 0 <= j < k ==> parts[j] == ""
    ensures |RemoveEmpty(parts)| > 0 && RemoveEmpty(parts)[0] == parts[k]
  {
    if k > 0 {
      assert parts[0] == "";
      RemoveEmptyFirst(parts[1..], k - 1);
    }
  }

  function UpperAll(parts: seq<string>): (r: seq<string>)
    ensures |r| == |parts|
    ensures forall i :: 0 <= i < |parts| ==> r[i] == ToUpperInvariant(parts[i])
  {
    seq(|parts|, i requires 0 <= i < |parts| => ToUpperInvariant(parts[i]))
  }

  predicate NoDuplicates<T(==)>(s: seq<T>) {
    forall i, j :: 0 <= i < j < |s| ==> s[i] != s[j]
  }

  /** LINQ `Distinct()`: the elements of `s`, each once, in order of first
      appearance. */
  function Distinct(s: seq<string>): (r: seq<string>)
    ensures forall x :: x in r <==> x in s
    ensures NoDuplicates(r)
    ensures |s| > 0 ==> |r| > 0 && r[0] == s[0]
  {
    if |s| == 0 then []
    else
      var d := Distinct(s[..|s| - 1]);
      if s[|s| - 1] in d then d else d + [s[|s| - 1]]
  }
}
