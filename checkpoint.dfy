/** Checkpoint selection when training resumes: among the file names that
    start with "neat-checkpoint-", the one whose text after the last '-' is
    the largest integer, read as Python's int() reads a string. */
module Checkpoint {
  import opened Wrappers

  const PREFIX: string := "neat-checkpoint-"

  /** f.startswith("neat-checkpoint-") */
  predicate IsCandidate(name: string) {
    PREFIX <= name
  }

  /** The list comprehension: the names that are candidates, in listing order. */
  function Candidates(files: seq<string>): (c: seq<string>)
    ensures forall f :: f in c <==> f in files && IsCandidate(f)
    ensures |c| <= |files|
  {
    if files == [] then []
    else (if IsCandidate(files[0]) then [files[0]] else []) + Candidates(files[1..])
  }

  /** Filtering keeps the listing order: the candidates of two listings one
      after the other are those of the first followed by those of the second. */
  lemma {:induction false} CandidatesAppend(a: seq<string>, b: seq<string>)
    ensures Candidates(a + b) == Candidates(a) + Candidates(b)
  {
    if a != [] {
      var head := if IsCandidate(a[0]) then [a[0]] else [];
      assert (a + b)[0] == a[0] && (a + b)[1..] == a[1..] + b;
      CandidatesAppend(a[1..], b);
      assert Candidates(a) == head + Candidates(a[1..]);
      assert Candidates(a + b) == head + (Candidates(a[1..]) + Candidates(b));
      assert head + (Candidates(a[1..]) + Candidates(b)) == (head + Candidates(a[1..])) + Candidates(b);
    } else {
      assert a + b == b;
    }
  }

  /** f.split('-')[-1]: the text after the last '-', or all of `s` without one. */
  function LastSegment(s: string): string {
    if s == [] then []
    else if s[|s| - 1] == '-' then []
    else LastSegment(s[..|s| - 1]) + [s[|s| - 1]]
  }

  /** The last segment is the end of `s` that holds no '-' and follows the
      last '-', if there is one. */
  lemma {:induction false} LastSegmentMeaning(s: string)
    ensures var r := LastSegment(s);
      && |r| <= |s| && (forall i :: 0 <= i < |r| ==> r[i] == s[|s| - |r| + i]) && '-' !in r
      && (|r| < |s| ==> s[|s| - |r| - 1] == '-')
  {
    if s != [] && s[|s| - 1] != '-' {
      LastSegmentMeaning(s[..|s| - 1]);
    }
  }

  /** The whitespace int() skips at both ends of its argument: the ASCII
      space, tab, line feed, vertical tab, form feed and carriage return,
      and the characters above U+007F that str.isspace() accepts. The ASCII
      separators U+001C to U+001F are kept, so int() rejects them. */
  predicate IsSpace(c: char) {
    var n := c as int;
    n == 0x20 || 0x09 <= n <= 0x0D || n == 0x85 || n == 0xA0 ||
    n == 0x1680 || 0x2000 <= n <= 0x200A || n == 0x2028 || n == 0x2029 ||
    n == 0x202F || n == 0x205F || n == 0x3000
  }

  predicate IsDigit(c: char) {
    48 <= c as int <= 57
  }

  function DigitValue(c: char): nat
    requires IsDigit(c)
  {
    c as int - 48
  }

  /** `s` without its leading whitespace. */
  function TrimStart(s: string): string {
    if s != [] && IsSpace(s[0]) then TrimStart(s[1..]) else s
  }

  /** `s` without its trailing whitespace. */
  function TrimEnd(s: string): string {
    if s != [] && IsSpace(s[|s| - 1]) then TrimEnd(s[..|s| - 1]) else s
  }

  /** TrimStart drops exactly the whitespace at the front. */
  lemma TrimStartMeaning(s: string)
    ensures var t := TrimStart(s);
      && |t| <= |s| && (forall i :: 0 <= i < |t| ==> t[i] == s[|s| - |t| + i])
      && (t == [] || !IsSpace(t[0]))
      && (forall i :: 0 <= i < |s| - |t| ==> IsSpace(s[i]))
  {
    TrimStartKeeps(s);
    TrimStartDrops(s);
  }

  /** What TrimStart keeps is an end of `s` that does not start with whitespace. */
  lemma {:induction false} TrimStartKeeps(s: string)
    ensures var t := TrimStart(s);
      && |t| <= |s| && (forall i :: 0 <= i < |t| ==> t[i] == s[|s| - |t| + i])
      && (t == [] || !IsSpace(t[0]))
  {
    if s != [] && IsSpace(s[0]) {
      var u := s[1..];
      TrimStartKeeps(u);
      var t := TrimStart(u);
      assert TrimStart(s) == t;
      forall i | 0 <= i < |t| ensures t[i] == s[|s| - |t| + i] {
        assert s[|s| - |t| + i] == u[|u| - |t| + i];
      }
    }
  }

  /** What TrimStart drops is all whitespace. */
  lemma {:induction false} TrimStartDrops(s: string)
    ensures forall i :: 0 <= i < |s| - |TrimStart(s)| ==> IsSpace(s[i])
  {
    if s != [] && IsSpace(s[0]) {
      var u := s[1..];
      TrimStartDrops(u);
      assert TrimStart(s) == TrimStart(u);
      forall i | 1 <= i < |s| - |TrimStart(u)| ensures IsSpace(s[i]) {
        assert s[i] == u[i - 1];
      }
    }
  }

  /** TrimEnd drops exactly the whitespace at the back. */
  lemma {:induction false} TrimEndMeaning(s: string)
    ensures var t := TrimEnd(s);
      && |t| <= |s| && (forall i :: 0 <= i < |t| ==> t[i] == s[i])
      && (t == [] || !IsSpace(t[|t| - 1]))
      && (forall i :: |t| <= i < |s| ==> IsSpace(s[i]))
  {
    if s != [] && IsSpace(s[|s| - 1]) {
      TrimEndMeaning(s[..|s| - 1]);
    }
  }

  /** The digit part int() accepts: one or more digits, with single
      underscores allowed between two digits. */
  predicate Grouped(s: string) {
    && |s| > 0 && IsDigit(s[0]) && IsDigit(s[|s| - 1])
    && (forall i :: 0 <= i < |s| ==> IsDigit(s[i]) || s[i] == '_')
    && (forall i, j :: 0 <= i < |s| && 0 <= j < |s| && j == i + 1 ==> !(s[i] == '_' && s[j] == '_'))
  }

  /** The number the digits of `s` spell, underscores skipped. */
  function DigitsValue(s: string): nat
    requires forall i :: 0 <= i < |s| ==> IsDigit(s[i]) || s[i] == '_'
  {
    if s == [] then 0
    else if s[|s| - 1] == '_' then DigitsValue(s[..|s| - 1])
    else 10 * DigitsValue(s[..|s| - 1]) + DigitValue(s[|s| - 1])
  }

  /** int(s) in base 10: surrounding whitespace, an optional sign, then the
      grouped digits; anything else raises ValueError, here None. */
  function ParseInt(s: string): Option<int> {
    var t := TrimEnd(TrimStart(s));
    if |t| > 0 && (t[0] == '+' || t[0] == '-') then
      if Grouped(t[1..]) then
        var v: int := DigitsValue(t[1..]);
        Some(if t[0] == '-' then -v else v)
      else None
    else if Grouped(t) then Some(DigitsValue(t))
    else None
  }

  /** The decimal numeral of `n`, the reference for what int() reads back. */
  function Decimal(n: nat): (s: string)
    ensures |s| > 0 && forall i :: 0 <= i < |s| ==> IsDigit(s[i])
  {
    (if n < 10 then [] else Decimal(n / 10)) + [(48 + n % 10) as char]
  }

  /** One more digit at the end multiplies the value by ten and adds the digit. */
  lemma DigitsValueSnoc(p: string, c: char)
    requires forall i :: 0 <= i < |p| ==> IsDigit(p[i]) || p[i] == '_'
    requires IsDigit(c)
    ensures DigitsValue(p + [c]) == 10 * DigitsValue(p) + DigitValue(c)
  {
    assert (p + [c])[..|p + [c]| - 1] == p;
  }

  /** The digits of the numeral of `n` spell `n`. */
  lemma {:induction false} DecimalValue(n: nat)
    ensures DigitsValue(Decimal(n)) == n
  {
    var p := if n < 10 then [] else Decimal(n / 10);
    var d := (48 + n % 10) as char;
    assert Decimal(n) == p + [d];
    assert DigitValue(d) == n % 10;
    if n >= 10 {
      DecimalValue(n / 10);
    }
    assert DigitsValue(p) == n / 10;
    DigitsValueSnoc(p, d);
    assert n == 10 * (n / 10) + n % 10;
  }

  /** Text that neither starts nor ends with whitespace is left as it is. */
  lemma Unstripped(t: string)
    requires t != [] && !IsSpace(t[0]) && !IsSpace(t[|t| - 1])
    ensures TrimEnd(TrimStart(t)) == t
  {
  }

  /** int() reads grouped digits as the number they spell. */
  lemma ParseGroupedDigits(u: string)
    requires Grouped(u)
    ensures ParseInt(u) == Some(DigitsValue(u))
  {
    Unstripped(u);
  }

  /** int() reads grouped digits after a sign as the signed number. */
  lemma ParseSignedDigits(u: string, sign: char)
    requires Grouped(u) && (sign == '+' || sign == '-')
    ensures ParseInt([sign] + u) == Some(if sign == '-' then -(DigitsValue(u) as int) else DigitsValue(u))
  {
    var t := [sign] + u;
    assert t[0] == sign && t[|t| - 1] == u[|u| - 1] && t[1..] == u;
    Unstripped(t);
  }

  /** A decimal numeral is grouped digits. */
  lemma DecimalGrouped(n: nat)
    ensures Grouped(Decimal(n))
  {
  }

  /** int() reads back every decimal numeral. */
  lemma ParseDecimal(n: nat)
    ensures ParseInt(Decimal(n)) == Some(n)
  {
    DecimalGrouped(n);
    DecimalValue(n);
    ParseGroupedDigits(Decimal(n));
  }

  /** Without a '-' there is no minus sign, so whatever int() reads is not negative. */
  lemma ParseWithoutMinus(s: string)
    requires '-' !in s
    ensures ParseInt(s).Some? ==> ParseInt(s).value >= 0
  {
    var t := TrimEnd(TrimStart(s));
    TrimStartMeaning(s);
    TrimEndMeaning(TrimStart(s));
    if |t| > 0 {
      assert t[0] == s[|s| - |TrimStart(s)|];
    }
  }

  /** int() rejects the empty string and text that is not a numeral:
      letters, a leading underscore, a doubled underscore, and a trailing
      U+001C, which str.isspace() accepts but int() does not skip. */
  lemma ParseRejects()
    ensures ParseInt("") == None
    ensures ParseInt("pkl") == None
    ensures ParseInt("_7") == None
    ensures ParseInt("1__0") == None
    ensures ParseInt(['5', 0x1C as char]) == None
  {
    Unstripped("pkl");
    Unstripped("_7");
    Unstripped("1__0");
    Unstripped(['5', 0x1C as char]);
    assert !Grouped("1__0") by { assert "1__0"[1] == '_' && "1__0"[2] == '_'; }
  }

  /** Leading whitespace goes, and the rest stays as it is. */
  lemma {:induction false} TrimStartPadded(ws: string, t: string)
    requires (forall i :: 0 <= i < |ws| ==> IsSpace(ws[i])) && (t == [] || !IsSpace(t[0]))
    ensures TrimStart(ws + t) == t
  {
    if ws != [] {
      assert (ws + t)[1..] == ws[1..] + t;
      TrimStartPadded(ws[1..], t);
    }
  }

  /** Trailing whitespace goes, and the rest stays as it is. */
  lemma {:induction false} TrimEndPadded(t: string, ws: string)
    requires (forall i :: 0 <= i < |ws| ==> IsSpace(ws[i])) && (t == [] || !IsSpace(t[|t| - 1]))
    ensures TrimEnd(t + ws) == t
  {
    if ws != [] {
      var init := ws[..|ws| - 1];
      assert (t + ws)[..|t + ws| - 1] == t + init;
      TrimEndPadded(t, init);
    }
  }

  /** int() ignores whitespace around the text it reads. */
  lemma ParsePadded(before: string, t: string, after: string)
    requires forall i :: 0 <= i < |before| ==> IsSpace(before[i])
    requires forall i :: 0 <= i < |after| ==> IsSpace(after[i])
    requires t != [] && !IsSpace(t[0]) && !IsSpace(t[|t| - 1])
    ensures ParseInt(before + t + after) == ParseInt(t)
  {
    assert before + t + after == before + (t + after);
    TrimStartPadded(before, t + after);
    TrimEndPadded(t, after);
    Unstripped(t);
  }

  /** int() skips single underscores between digits. */
  lemma ParseUnderscore()
    ensures ParseInt("1" + "_" + "0" + "0" + "0") == Some(1000)
  {
    var s1 := "1";
    var s2 := s1 + "_";
    var s3 := s2 + "0";
    var s4 := s3 + "0";
    var s5 := s4 + "0";
    assert s5[..4] == s4 && s4[..3] == s3 && s3[..2] == s2 && s2[..1] == s1;
    assert s5[0] == '1' && s5[1] == '_' && s5[2] == '0' && s5[3] == '0' && s5[4] == '0';
    assert DigitsValue(s1) == 1;
    assert DigitsValue(s2) == 1;
    assert DigitsValue(s3) == 10;
    assert DigitsValue(s4) == 100;
    assert Grouped(s5);
    Unstripped(s5);
  }

  /** key=lambda f: int(f.split('-')[-1]) */
  function Key(name: string): Option<int> {
    ParseInt(LastSegment(name))
  }

  /** A key read from the last segment is never negative. */
  lemma KeyNotNegative(name: string)
    ensures Key(name).Some? ==> Key(name).value >= 0
  {
    LastSegmentMeaning(name);
    ParseWithoutMinus(LastSegment(name));
  }

  /** The keys of the names, in order; max() asks for them one by one. */
  function Keys(c: seq<string>): (keys: seq<Option<int>>)
    ensures |keys| == |c|
  {
    if c == [] then [] else [Key(c[0])] + Keys(c[1..])
  }

  /** The j-th key is the key of the j-th name. */
  lemma {:induction false} KeysAt(c: seq<string>, j: nat)
    requires j < |c|
    ensures Keys(c)[j] == Key(c[j])
  {
    if j > 0 {
      KeysAt(c[1..], j - 1);
    }
  }

  /** The rest of max() from position `i`, when `b` is the position of the
      first largest key so far: a strictly larger key takes over, and a key
      that fails ends the search at its position. */
  function MaxFrom(keys: seq<Option<int>>, i: nat, b: nat): (r: Result<nat, nat>)
    requires b < i <= |keys| && keys[b].Some?
    ensures r.Success? ==> b <= r.value < |keys|
    ensures r.Failure? ==> i <= r.error < |keys|
    decreases |keys| - i
  {
    if i == |keys| then Success(b)
    else match keys[i]
      case None => Failure(i)
      case Some(k) => if k > keys[b].value then MaxFrom(keys, i + 1, i) else MaxFrom(keys, i + 1, b)
  }

  /** max() over non-empty keys: the position of the result, or of the key that failed. */
  function MaxByKey(keys: seq<Option<int>>): (r: Result<nat, nat>)
    requires keys != []
    ensures r.Success? ==> r.value < |keys|
    ensures r.Failure? ==> r.error < |keys|
  {
    match keys[0]
      case None => Failure(0)
      case Some(_) => MaxFrom(keys, 1, 0)
  }

  /** Every key is there. */
  ghost predicate AllKeyed(keys: seq<Option<int>>) {
    forall j :: 0 <= j < |keys| ==> keys[j].Some?
  }

  /** Position `m` holds the largest of the first `n` keys, and no earlier
      key is as large. */
  ghost predicate FirstMaxOf(keys: seq<Option<int>>, n: nat, m: nat)
    requires n <= |keys| && forall j :: 0 <= j < n ==> keys[j].Some?
  {
    && m < n
    && (forall j :: 0 <= j < n ==> keys[j].value <= keys[m].value)
    && (forall j :: 0 <= j < m ==> keys[j].value < keys[m].value)
  }

  /** Position `m` holds the first key that failed. */
  ghost predicate FirstUnkeyed(keys: seq<Option<int>>, m: nat) {
    m < |keys| && keys[m].None? && forall j :: 0 <= j < m ==> keys[j].Some?
  }

  lemma {:induction false} MaxFromMeaning(keys: seq<Option<int>>, i: nat, b: nat)
    requires b < i <= |keys| && forall j :: 0 <= j < i ==> keys[j].Some?
    requires FirstMaxOf(keys, i, b)
    ensures var r := MaxFrom(keys, i, b);
      && (r.Success? <==> AllKeyed(keys))
      && (r.Success? ==> FirstMaxOf(keys, |keys|, r.value))
      && (r.Failure? ==> FirstUnkeyed(keys, r.error))
    decreases |keys| - i
  {
    if i < |keys| && keys[i].Some? {
      var b' := if keys[i].value > keys[b].value then i else b;
      assert FirstMaxOf(keys, i + 1, b');
      MaxFromMeaning(keys, i + 1, b');
    }
  }

  /** max() with a key returns the first position with the largest key, and
      fails exactly when some key fails, at the first such position. */
  lemma MaxByKeyMeaning(keys: seq<Option<int>>)
    requires keys != []
    ensures var r := MaxByKey(keys);
      && (r.Success? <==> AllKeyed(keys))
      && (r.Success? ==> FirstMaxOf(keys, |keys|, r.value))
      && (r.Failure? ==> FirstUnkeyed(keys, r.error))
  {
    if keys[0].Some? {
      assert FirstMaxOf(keys, 1, 0);
      MaxFromMeaning(keys, 1, 0);
    }
  }

  /** What training starts from: a fresh population, or the checkpoint file. */
  datatype Choice = NewPopulation | Restore(checkpoint: string)

  /** int() raised ValueError on this name's suffix. */
  datatype SelectError = NotAnInteger(name: string)

  /** Option 2 of main: restore from the checkpoint with the largest number,
      or start afresh when there is none. */
  function SelectCheckpoint(files: seq<string>): Result<Choice, SelectError> {
    var c := Candidates(files);
    if c == [] then Success(NewPopulation)
    else match MaxByKey(Keys(c))
      case Success(m) => Success(Restore(c[m]))
      case Failure(m) => Failure(NotAnInteger(c[m]))
  }

  /** Training starts afresh exactly when no name is a candidate. */
  lemma SelectNewPopulation(files: seq<string>)
    ensures SelectCheckpoint(files) == Success(NewPopulation) <==>
            forall f :: f in files ==> !IsCandidate(f)
  {
    var c := Candidates(files);
    if c != [] {
      assert c[0] in files && IsCandidate(c[0]);
    }
  }

  /** The restored checkpoint is a candidate; every candidate has an integer
      key, the restored one's is at least every other's, and strictly above
      those of the candidates listed before it. */
  lemma SelectRestore(files: seq<string>)
    ensures SelectCheckpoint(files).Success? && SelectCheckpoint(files).value.Restore? ==>
      var c := Candidates(files);
      var f := SelectCheckpoint(files).value.checkpoint;
      && f in files && IsCandidate(f)
      && AllKeyed(Keys(c))
      && exists m :: 0 <= m < |c| && c[m] == f && FirstMaxOf(Keys(c), |c|, m)
  {
    var c := Candidates(files);
    if c != [] {
      MaxByKeyMeaning(Keys(c));
    }
  }

  /** Selection fails exactly when some candidate's suffix is not an
      integer, and it names the first such candidate. */
  lemma SelectFailure(files: seq<string>)
    ensures var c := Candidates(files);
      && (SelectCheckpoint(files).Failure? <==> !AllKeyed(Keys(c)))
      && (SelectCheckpoint(files).Failure? ==>
            exists m :: 0 <= m < |c| && FirstUnkeyed(Keys(c), m) && SelectCheckpoint(files).error == NotAnInteger(c[m]))
  {
    var c := Candidates(files);
    if c != [] {
      MaxByKeyMeaning(Keys(c));
    }
  }

  /** The last segment of a name that ends in '-' followed by text without
      one is that text. */
  lemma {:induction false} LastSegmentAfterDash(p: string, x: string)
    requires p != [] && p[|p| - 1] == '-' && '-' !in x
    ensures LastSegment(p + x) == x
    decreases |x|
  {
    if x == [] {
      assert p + x == p;
    } else {
      var init := x[..|x| - 1];
      assert (p + x)[..|p + x| - 1] == p + init;
      assert (p + x)[|p + x| - 1] == x[|x| - 1];
      LastSegmentAfterDash(p, init);
    }
  }

  /** With two candidates whose numbers rise, the later one is restored. */
  lemma SelectLaterOfTwo(files: seq<string>, a: string, b: string, x: int, y: int)
    requires Candidates(files) == [a, b]
    requires Key(a) == Some(x) && Key(b) == Some(y) && x < y
    ensures SelectCheckpoint(files) == Success(Restore(b))
  {
    var c := [a, b];
    KeysAt(c, 0);
    KeysAt(c, 1);
    var keys := Keys(c);
    assert MaxFrom(keys, 2, 1) == Success(1);
    assert MaxFrom(keys, 1, 0) == MaxFrom(keys, 2, 1);
  }

  /** The suffix after the last dash of a checkpoint name is its number. */
  lemma KeyOfCheckpoint(n: nat)
    ensures Key(PREFIX + Decimal(n)) == Some(n)
  {
    assert forall i :: 0 <= i < |Decimal(n)| ==> Decimal(n)[i] != '-';
    LastSegmentAfterDash(PREFIX, Decimal(n));
    ParseDecimal(n);
  }

  /** Generation 10 is chosen over generation 9: numbers compare as integers, not as text. */
  lemma SelectByNumber()
    ensures SelectCheckpoint([PREFIX + "9", "winner.pkl", PREFIX + "10"]) == Success(Restore(PREFIX + "10"))
  {
    var files := [PREFIX + "9", "winner.pkl", PREFIX + "10"];
    assert (PREFIX + "9")[..|PREFIX|] == PREFIX && (PREFIX + "10")[..|PREFIX|] == PREFIX;
    assert IsCandidate(files[0]) && !IsCandidate(files[1]) && IsCandidate(files[2]);
    assert Candidates(files) == [files[0], files[2]];
    assert Decimal(9) == "9" && Decimal(1) == "1";
    assert Decimal(10) == Decimal(1) + "0" == "10";
    KeyOfCheckpoint(9);
    KeyOfCheckpoint(10);
    SelectLaterOfTwo(files, files[0], files[2], 9, 10);
  }
}
