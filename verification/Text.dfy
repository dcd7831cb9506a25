/** The string operations the repository leans on: split, join and strip. */
module Text {

  /** `sep.join(parts)` for a one-character separator. */
  function Join(parts: seq<string>, sep: char): string
  {
    if |parts| == 0 then ""
    else if |parts| == 1 then parts[0]
    else parts[0] + [sep] + Join(parts[1..], sep)
  }

  /** `s.split(sep)`, which never gives an empty list. */
  function Split(s: string, sep: char): (parts: seq<string>)
    ensures |parts| >= 1
  {
    if s == "" then [""]
    else Push(s[0], Split(s[1..], sep), sep)
  }

  /** One more character in front of text already split: a new empty part, or a longer first part. */
  function Push(c: char, parts: seq<string>, sep: char): (r: seq<string>)
    requires |parts| >= 1
    ensures |r| >= 1
  {
    if c == sep then [""] + parts else [[c] + parts[0]] + parts[1..]
  }

  /** Joining undoes splitting, and no part holds the separator. */
  lemma {:induction false} JoinSplit(s: string, sep: char)
    ensures Join(Split(s, sep), sep) == s
    ensures forall p | p in Split(s, sep) :: sep !in p
  {
    if s != "" {
      JoinSplit(s[1..], sep);
      JoinPush(s[0], Split(s[1..], sep), sep);
      assert [s[0]] + s[1..] == s;
    }
  }

  lemma {:induction false} JoinPush(c: char, parts: seq<string>, sep: char)
    requires |parts| >= 1
    requires forall p | p in parts :: sep !in p
    ensures Join(Push(c, parts, sep), sep) == [c] + Join(parts, sep)
    ensures forall p | p in Push(c, parts, sep) :: sep !in p
  {
    var pushed := Push(c, parts, sep);
    if c == sep {
      assert pushed[1..] == parts;
    } else {
      assert pushed[1..] == parts[1..];
      assert forall p | p in pushed :: p == pushed[0] || p in parts;
    }
  }

  lemma {:induction false} SplitNoSep(s: string, sep: char)
    requires sep !in s
    ensures Split(s, sep) == [s]
  {
    if s != "" {
      SplitNoSep(s[1..], sep);
      assert [s[0]] + s[1..] == s;
    }
  }

  /** Splitting goes part by part over a separator. */
  lemma {:induction false} SplitConcat(a: string, b: string, sep: char)
    ensures Split(a + [sep] + b, sep) == Split(a, sep) + Split(b, sep)
  {
    var s := a + [sep] + b;
    if a == "" {
      assert s[1..] == b;
    } else {
      SplitConcat(a[1..], b, sep);
      assert s[1..] == a[1..] + [sep] + b && s[0] == a[0];
      PushConcat(a[0], Split(a[1..], sep), Split(b, sep), sep);
    }
  }

  lemma PushConcat(c: char, x: seq<string>, y: seq<string>, sep: char)
    requires |x| >= 1
    ensures Push(c, x + y, sep) == Push(c, x, sep) + y
  {
    assert (x + y)[1..] == x[1..] + y;
  }

  /** Splitting undoes joining, for parts that do not hold the separator. */
  lemma {:induction false} SplitJoin(parts: seq<string>, sep: char)
    requires |parts| >= 1
    requires forall p | p in parts :: sep !in p
    ensures Split(Join(parts, sep), sep) == parts
  {
    SplitNoSep(parts[0], sep);
    if |parts| > 1 {
      SplitJoin(parts[1..], sep);
      SplitConcat(parts[0], Join(parts[1..], sep), sep);
      assert parts == [parts[0]] + parts[1..];
    }
  }

  lemma {:induction false} JoinConcat(a: seq<string>, b: seq<string>, sep: char)
    requires |a| >= 1 && |b| >= 1
    ensures Join(a + b, sep) == Join(a, sep) + [sep] + Join(b, sep)
  {
    var ab := a + b;
    if |a| == 1 {
      assert ab[1..] == b;
    } else {
      JoinConcat(a[1..], b, sep);
      assert ab[1..] == a[1..] + b;
    }
  }

  /** Joining the first i of the parts of a string gives what stands before one of its separators... */
  lemma {:induction false} PartsArePrefix(s: string, i: nat, sep: char)
    requires 1 <= i < |Split(s, sep)|
    ensures Join(Split(s, sep)[..i], sep) + [sep] <= s
  {
    var parts := Split(s, sep);
    JoinSplit(s, sep);
    JoinConcat(parts[..i], parts[i..], sep);
    assert parts == parts[..i] + parts[i..];
  }

  /** ...and everything that stands before a separator arises in this way. */
  lemma PrefixIsParts(s: string, p: string, sep: char) returns (i: nat)
    requires p + [sep] <= s
    ensures 1 <= i < |Split(s, sep)| && Join(Split(s, sep)[..i], sep) == p
  {
    var rest := s[|p| + 1..];
    assert s == p + [sep] + rest;
    SplitConcat(p, rest, sep);
    JoinSplit(p, sep);
    i := |Split(p, sep)|;
    assert Split(s, sep)[..i] == Split(p, sep);
  }

  /** The characters `str.strip()` removes. */
  predicate IsSpace(c: char)
  {
    var k := c as int;
    || 0x09 <= k <= 0x0D || 0x1C <= k <= 0x20 || k == 0x85 || k == 0xA0 || k == 0x1680
    || 0x2000 <= k <= 0x200A || k == 0x2028 || k == 0x2029 || k == 0x202F || k == 0x205F || k == 0x3000
  }

  function LStrip(s: string): string
  {
    if s != "" && IsSpace(s[0]) then LStrip(s[1..]) else s
  }

  function RStrip(s: string): string
  {
    if s != "" && IsSpace(s[|s| - 1]) then RStrip(s[..|s| - 1]) else s
  }

  /** `s.strip()` */
  function Strip(s: string): string
  {
    RStrip(LStrip(s))
  }

  predicate Trimmed(s: string)
  {
    s == "" || (!IsSpace(s[0]) && !IsSpace(s[|s| - 1]))
  }

  lemma {:induction false} LStripExact(s: string) returns (i: nat)
    ensures i <= |s| && LStrip(s) == s[i..] && (i == |s| || !IsSpace(s[i]))
    ensures forall k | 0 <= k < i :: IsSpace(s[k])
  {
    if s != "" && IsSpace(s[0]) {
      var j := LStripExact(s[1..]);
      i := j + 1;
      assert s[1..][j..] == s[i..];
      assert forall k | 1 <= k < i :: s[k] == s[1..][k - 1];
    } else {
      i := 0;
    }
  }

  lemma {:induction false} RStripExact(s: string) returns (n: nat)
    ensures n <= |s| && RStrip(s) == s[..n] && (n == 0 || !IsSpace(s[n - 1]))
    ensures forall k | n <= k < |s| :: IsSpace(s[k])
  {
    if s != "" && IsSpace(s[|s| - 1]) {
      n := RStripExact(s[..|s| - 1]);
      assert s[..|s| - 1][..n] == s[..n];
    } else {
      n := |s|;
    }
  }

  /** Stripping leaves what stands between the spaces at both ends. */
  lemma StripExact(s: string) returns (i: nat, j: nat)
    ensures i <= j <= |s| && Strip(s) == s[i..j] && Trimmed(Strip(s))
    ensures forall k | 0 <= k < i || j <= k < |s| :: IsSpace(s[k])
    ensures Trimmed(s) ==> Strip(s) == s
  {
    i := LStripExact(s);
    var n := RStripExact(s[i..]);
    j := i + n;
    assert s[i..][..n] == s[i..j];
  }

  lemma StripTrims(s: string)
    ensures Trimmed(Strip(s)) && (Trimmed(s) ==> Strip(s) == s)
  {
    var i, j := StripExact(s);
  }
}
