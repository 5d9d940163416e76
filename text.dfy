/**
 * The Python string operations the scraper and the dashboard are built from:
 * `str.strip()`, `in`, `str.split(sep)`, `str.split()`, `sep.join(xs)`,
 * `str.lower()`, `str.replace(c, "")`, `str.isdigit()` and `int(s)`.
 * Strings are sequences of characters.
 */
module Text {
  import opened Wrappers

  // ---------------------------------------------------------------------------
  // Whitespace and str.strip()
  // ---------------------------------------------------------------------------

  /** The characters Python's `str.isspace()` accepts; `strip()` and `split()` use this set. */
  predicate IsSpace(c: char) {
    || ('\t' <= c <= '\r')
    || ('\U{1C}' <= c <= ' ')
    || c == '\U{85}' || c == '\U{A0}' || c == '\U{1680}'
    || ('\U{2000}' <= c <= '\U{200A}')
    || c == '\U{2028}' || c == '\U{2029}' || c == '\U{202F}' || c == '\U{205F}' || c == '\U{3000}'
  }

  predicate AllSpace(s: string) {
    forall i | 0 <= i < |s| :: IsSpace(s[i])
  }

  /** A string with no whitespace at either end: what `strip()` returns. */
  predicate IsStripped(s: string) {
    s == [] || (!IsSpace(s[0]) && !IsSpace(s[|s| - 1]))
  }

  /** Python's `str.lstrip()`. */
  function TrimLeft(s: string): string {
    if s != [] && IsSpace(s[0]) then TrimLeft(s[1..]) else s
  }

  lemma {:induction false} TrimLeftSpec(s: string)
    ensures var r := TrimLeft(s); |r| <= |s| && r == s[|s| - |r|..]
    ensures var r := TrimLeft(s); AllSpace(s[..|s| - |r|])
    ensures var r := TrimLeft(s); r == [] || !IsSpace(r[0])
    decreases |s|
  {
    if s != [] && IsSpace(s[0]) {
      TrimLeftSpec(s[1..]);
      var r := TrimLeft(s);
      assert s[1..][|s[1..]| - |r|..] == s[|s| - |r|..];
      assert s[..|s| - |r|] == [s[0]] + s[1..][..|s[1..]| - |r|];
    } else {
      assert s[..0] == [];
    }
  }

  /** Python's `str.rstrip()`. */
  function TrimRight(s: string): string {
    if s != [] && IsSpace(s[|s| - 1]) then TrimRight(s[..|s| - 1]) else s
  }

  lemma {:induction false} TrimRightSpec(s: string)
    ensures var r := TrimRight(s); |r| <= |s| && r == s[..|r|]
    ensures var r := TrimRight(s); AllSpace(s[|r|..])
    ensures var r := TrimRight(s); r == [] || !IsSpace(r[|r| - 1])
    decreases |s|
  {
    if s != [] && IsSpace(s[|s| - 1]) {
      var init := s[..|s| - 1];
      TrimRightSpec(init);
      var r := TrimRight(s);
      assert init[..|r|] == s[..|r|];
      assert forall i | |r| <= i < |s| - 1 :: s[i] == init[i];
      assert forall i | 0 <= i < |s| - |r| :: s[|r|..][i] == s[|r| + i];
    } else {
      assert s[|s|..] == [];
    }
  }

  /** Python's `str.strip()`: the string with whitespace removed from both ends. */
  function Strip(s: string): (r: string)
    ensures IsStripped(r) && |r| <= |s|
  {
    TrimLeftSpec(s);
    TrimRightSpec(TrimLeft(s));
    TrimRight(TrimLeft(s))
  }

  /** What `strip()` removes is whitespace, from the two ends only. */
  lemma StripMargins(s: string) returns (p: string, q: string)
    ensures AllSpace(p) && AllSpace(q) && s == p + Strip(s) + q
  {
    var t := TrimLeft(s);
    TrimLeftSpec(s);
    p := s[..|s| - |t|];
    q := TrimSplit(t);
    assert s == p + t by { assert s == s[..|s| - |t|] + s[|s| - |t|..]; }
    assert Strip(s) == TrimRight(t);
    assert p + (TrimRight(t) + q) == p + TrimRight(t) + q;
  }

  lemma TrimSplit(t: string) returns (q: string)
    ensures AllSpace(q) && t == TrimRight(t) + q
  {
    var r := TrimRight(t);
    TrimRightSpec(t);
    q := t[|r|..];
    assert t == t[..|r|] + t[|r|..];
  }

  lemma {:induction false} TrimLeftSkips(p: string, t: string)
    requires AllSpace(p) && (t == [] || !IsSpace(t[0]))
    ensures TrimLeft(p + t) == t
    decreases |p|
  {
    if p != [] {
      assert (p + t)[1..] == p[1..] + t;
      TrimLeftSkips(p[1..], t);
    } else {
      assert p + t == t;
    }
  }

  lemma {:induction false} TrimRightSkips(t: string, q: string)
    requires AllSpace(q) && (t == [] || !IsSpace(t[|t| - 1]))
    ensures TrimRight(t + q) == t
    decreases |q|
  {
    if q != [] {
      assert (t + q)[..|t + q| - 1] == t + q[..|q| - 1];
      TrimRightSkips(t, q[..|q| - 1]);
    } else {
      assert t + q == t;
    }
  }

  /** `strip()` removes exactly the whitespace margins: the stripped core of `p + m + q` is `m`. */
  lemma StripCore(p: string, m: string, q: string)
    requires AllSpace(p) && IsStripped(m) && AllSpace(q)
    ensures Strip(p + m + q) == m
  {
    if m == [] {
      assert p + m + q == (p + q) + [];
      TrimLeftSkips(p + q, []);
    } else {
      assert p + m + q == p + (m + q);
      TrimLeftSkips(p, m + q);
      TrimRightSkips(m, q);
    }
  }

  /** Whitespace after a stripped text is all that `strip()` removes. */
  lemma StripTrailing(m: string, q: string)
    requires IsStripped(m) && AllSpace(q)
    ensures Strip(m + q) == m
  {
    StripCore("", m, q);
    assert "" + m + q == m + q;
  }

  /** Stripping twice is stripping once. */
  lemma StripIdempotent(s: string)
    ensures Strip(Strip(s)) == Strip(s)
  {
    var m := Strip(s);
    assert [] + m + [] == m;
    StripCore([], m, []);
  }

  // ---------------------------------------------------------------------------
  // Substring search: the `in` operator, and where `split(sep)` cuts
  // ---------------------------------------------------------------------------

  /** Where `pat` occurs in `s` at offset `j`. */
  predicate OccursAt(s: string, pat: string, j: int) {
    0 <= j && j + |pat| <= |s| && s[j..j + |pat|] == pat
  }

  /** The first occurrence of `pat` in `s` at offset `k` or later. */
  function FindFrom(s: string, pat: string, k: nat): (r: Option<nat>)
    ensures r.Some? ==> k <= r.value && OccursAt(s, pat, r.value)
    ensures r.Some? ==> forall j | k <= j < r.value :: !OccursAt(s, pat, j)
    ensures r.None? ==> forall j | k <= j :: !OccursAt(s, pat, j)
    decreases |s| - k
  {
    if k + |pat| > |s| then None
    else if s[k..k + |pat|] == pat then Some(k)
    else FindFrom(s, pat, k + 1)
  }

  /** The offset of the first occurrence of `pat` in `s`, `None` when there is none: the search behind `in` and `split(sep)`. */
  function IndexOf(s: string, pat: string): (r: Option<nat>)
    ensures r.Some? ==> OccursAt(s, pat, r.value)
    ensures r.Some? ==> forall j | 0 <= j < r.value :: !OccursAt(s, pat, j)
    ensures r.None? ==> forall j :: !OccursAt(s, pat, j)
  {
    FindFrom(s, pat, 0)
  }

  /** Python's `pat in s`. */
  function Contains(s: string, pat: string): (b: bool)
    ensures b <==> exists j :: OccursAt(s, pat, j)
  {
    IndexOf(s, pat).Some?
  }

  /** A first occurrence determines the search: nothing earlier, so it is the answer. */
  lemma IndexOfFirst(s: string, pat: string, i: nat)
    requires OccursAt(s, pat, i)
    requires forall j | 0 <= j < i :: !OccursAt(s, pat, j)
    ensures IndexOf(s, pat) == Some(i)
  {
  }

  /** `pat` is found right after `a` when `a` cannot hold the first character of `pat`. */
  lemma IndexOfAfter(a: string, pat: string, b: string)
    requires pat != [] && pat[0] !in a
    ensures IndexOf(a + pat + b, pat) == Some(|a|)
  {
    var s := a + pat + b;
    assert s[|a|..|a| + |pat|] == pat;
    forall j | 0 <= j < |a|
      ensures !OccursAt(s, pat, j)
    {
      assert s[j] == a[j];
      if j + |pat| <= |s| { assert s[j..j + |pat|][0] == a[j]; }
    }
    IndexOfFirst(s, pat, |a|);
  }

  /** A first occurrence stays the first one whatever text follows. */
  lemma IndexOfExtend(s: string, pat: string, t: string)
    requires IndexOf(s, pat).Some?
    ensures IndexOf(s + t, pat) == IndexOf(s, pat)
  {
    var i := IndexOf(s, pat).value;
    assert (s + t)[i..i + |pat|] == s[i..i + |pat|];
    forall j | 0 <= j < i
      ensures !OccursAt(s + t, pat, j)
    {
      assert !OccursAt(s, pat, j);
      assert (s + t)[j..j + |pat|] == s[j..j + |pat|];
    }
    IndexOfFirst(s + t, pat, i);
  }

  /** A string none of whose characters starts `pat` does not contain `pat`. */
  lemma NotContains(s: string, pat: string)
    requires pat != [] && pat[0] !in s
    ensures !Contains(s, pat)
  {
    forall j | 0 <= j && j + |pat| <= |s|
      ensures !OccursAt(s, pat, j)
    {
      assert s[j..j + |pat|][0] == s[j];
    }
  }

  // ---------------------------------------------------------------------------
  // str.split(sep) and sep.join(xs)
  // ---------------------------------------------------------------------------

  /** Python's `s.split(sep)` for a non-empty separator (an empty one raises ValueError). */
  function Split(s: string, sep: string): (r: seq<string>)
    requires sep != []
    ensures |r| >= 1
    ensures |r| >= 2 <==> Contains(s, sep)
    decreases |s|
  {
    match IndexOf(s, sep)
    case None => [s]
    case Some(i) => [s[..i]] + Split(s[i + |sep|..], sep)
  }

  /** Python's `sep.join(xs)`. */
  function Join(sep: string, xs: seq<string>): (r: string)
    ensures xs != [] ==> xs[0] <= r
  {
    if |xs| == 0 then []
    else if |xs| == 1 then xs[0]
    else xs[0] + sep + Join(sep, xs[1..])
  }

  /** Joining the pieces of a split with the same separator gives back the text. */
  lemma {:induction false} JoinSplit(s: string, sep: string)
    requires sep != []
    ensures Join(sep, Split(s, sep)) == s
    decreases |s|
  {
    match IndexOf(s, sep)
    case None =>
    case Some(i) =>
      var rest := s[i + |sep|..];
      var tail := Split(rest, sep);
      JoinSplit(rest, sep);
      var parts := [s[..i]] + tail;
      assert Split(s, sep) == parts;
      assert parts[1..] == tail;
      calc {
        Join(sep, parts);
        parts[0] + sep + Join(sep, tail);
        s[..i] + sep + rest;
        { assert s[i..i + |sep|] == sep; }
        s;
      }
  }

  /** The first piece of a split ends where the separator first occurs. */
  lemma SplitFirstPiece(a: string, sep: string, b: string)
    requires sep != [] && sep[0] !in a
    ensures Split(a + sep + b, sep)[0] == a
  {
    IndexOfAfter(a, sep, b);
    var s := a + sep + b;
    assert s == a + (sep + b);
    assert s[..|a|] == a;
  }

  /** Each string of `xs` with `pad` in front. */
  function Padded(pad: string, xs: seq<string>): (r: seq<string>)
    ensures |r| == |xs| && forall k | 0 <= k < |xs| :: r[k] == pad + xs[k]
  {
    seq(|xs|, k requires 0 <= k < |xs| => pad + xs[k])
  }

  /** A text without the separator character splits into itself alone. */
  lemma SplitNoSep(s: string, c: char)
    requires c !in s
    ensures Split(s, [c]) == [s]
  {
    NotContains(s, [c]);
  }

  /** A text splits at the first separator character. */
  lemma SplitAtSep(a: string, c: char, b: string)
    requires c !in a
    ensures Split(a + [c] + b, [c]) == [a] + Split(b, [c])
  {
    IndexOfAfter(a, [c], b);
    assert (a + [c] + b)[..|a|] == a;
    assert (a + [c] + b)[|a| + 1..] == b;
  }

  /** The first occurrence of a character in a text that holds it. */
  lemma {:induction false} FirstOccurrence(s: string, c: char) returns (i: nat)
    requires c in s
    ensures i < |s| && s[i] == c && c !in s[..i]
    decreases |s|
  {
    if s[0] == c {
      i := 0;
    } else {
      assert c in s[1..] by {
        var j :| 0 <= j < |s| && s[j] == c;
        assert s[1..][j - 1] == c;
      }
      var k := FirstOccurrence(s[1..], c);
      i := k + 1;
      assert s[..i] == [s[0]] + s[1..][..k];
    }
  }

  /** The copies of `c` in `a + [c] + b`: those of `a`, that one, and those of `b`. */
  lemma CountAround(a: string, c: char, b: string)
    ensures multiset(a + [c] + b)[c] == multiset(a)[c] + 1 + multiset(b)[c]
  {
    assert multiset(a + [c] + b) == multiset(a) + multiset([c]) + multiset(b);
  }

  /** Splitting on a character gives one piece more than there are separators. */
  lemma {:induction false} SplitCount(s: string, c: char)
    ensures |Split(s, [c])| == multiset(s)[c] + 1
    decreases |s|
  {
    if c !in s {
      SplitNoSep(s, c);
      assert multiset(s)[c] == 0;
    } else {
      var i := FirstOccurrence(s, c);
      var a, b := s[..i], s[i + 1..];
      assert s == a + [c] + b;
      SplitAtSep(a, c, b);
      SplitCount(b, c);
      CountAround(a, c, b);
      assert multiset(a)[c] == 0;
    }
  }

  /**
   * Splitting on a single character `c` undoes a join whose separator is `c`
   * followed by a padding `pad` free of `c`: each piece after the first keeps
   * the padding in front. `p` is text already in front of the first piece.
   */
  lemma {:induction false} SplitJoinChar(c: char, pad: string, p: string, xs: seq<string>)
    requires xs != []
    requires c !in pad && c !in p
    requires forall k | 0 <= k < |xs| :: c !in xs[k]
    ensures Split(p + Join([c] + pad, xs), [c]) == [p + xs[0]] + Padded(pad, xs[1..])
    decreases |xs|
  {
    var sep := [c] + pad;
    if |xs| == 1 {
      SplitNoSep(p + xs[0], c);
    } else {
      var a := p + xs[0];
      var b := pad + Join(sep, xs[1..]);
      assert p + Join(sep, xs) == a + [c] + b;
      SplitAtSep(a, c, b);
      SplitJoinChar(c, pad, pad, xs[1..]);
      assert xs[1..][1..] == xs[2..];
      assert Padded(pad, xs[1..]) == [pad + xs[1]] + Padded(pad, xs[2..]);
    }
  }

  /** The strings of `xss` one after the other (the flattening of a list of lists). */
  function Concat<T>(xss: seq<seq<T>>): seq<T> {
    if xss == [] then [] else Concat(xss[..|xss| - 1]) + xss[|xss| - 1]
  }

  /** Flattening from the front: the first list, then the flattening of the rest. */
  lemma {:induction false} ConcatFront<T>(xss: seq<seq<T>>)
    requires xss != []
    ensures Concat(xss) == xss[0] + Concat(xss[1..])
    decreases |xss|
  {
    if |xss| == 1 {
      assert xss[..0] == [] && xss[1..] == [];
    } else {
      var init, last := xss[..|xss| - 1], xss[|xss| - 1];
      var rest := xss[1..];
      ConcatFront(init);
      assert init[0] == xss[0];
      assert rest[..|rest| - 1] == init[1..] && rest[|rest| - 1] == last;
      assert Concat(rest) == Concat(init[1..]) + last;
      assert Concat(xss) == Concat(init) + last;
      assert xss[0] + (Concat(init[1..]) + last) == (xss[0] + Concat(init[1..])) + last;
    }
  }

  lemma {:induction false} ConcatExtends<T>(xss: seq<seq<T>>, n: nat)
    requires n <= |xss|
    ensures Concat(xss[..n]) <= Concat(xss)
    decreases |xss|
  {
    if n < |xss| {
      ConcatExtends(xss[..|xss| - 1], n);
      assert xss[..|xss| - 1][..n] == xss[..n];
    } else {
      assert xss[..n] == xss;
    }
  }

  /** Removing the commas from comma-joined pieces leaves the pieces run together. */
  lemma {:induction false} RemoveCommaJoin(xs: seq<string>)
    requires forall k | 0 <= k < |xs| :: ',' !in xs[k]
    ensures RemoveChar(Join(",", xs), ',') == Concat(xs)
    decreases |xs|
  {
    if |xs| == 1 {
      RemoveAbsent(xs[0], ',');
      assert xs[..0] == [];
    } else if |xs| > 1 {
      var rest := Join(",", xs[1..]);
      assert Join(",", xs) == xs[0] + "," + rest;
      RemoveCommaJoin(xs[1..]);
      RemoveAbsent(xs[0], ',');
      RemoveCharAppend(xs[0] + ",", rest, ',');
      RemoveCharAppend(xs[0], ",", ',');
      assert RemoveChar(",", ',') == [] by { assert ","[1..] == []; }
      assert xs[0] + [] == xs[0];
      ConcatFront(xs);
    }
  }

  // ---------------------------------------------------------------------------
  // str.split() with no argument: the first whitespace-separated token
  // ---------------------------------------------------------------------------

  /** Length of the run of non-whitespace characters at the front of `s`. */
  function TokenLength(s: string): (n: nat)
    ensures n <= |s|
    ensures forall i | 0 <= i < n :: !IsSpace(s[i])
    ensures n == |s| || IsSpace(s[n])
  {
    if s == [] || IsSpace(s[0]) then 0 else 1 + TokenLength(s[1..])
  }

  /**
   * Python's `s.split()[0]`: the first maximal run of non-whitespace characters;
   * `None` stands for the IndexError raised when `s` is all whitespace.
   */
  function FirstToken(s: string): (r: Option<string>)
    ensures r.None? <==> AllSpace(s)
    ensures r.Some? ==> r.value != [] && !IsSpace(r.value[0])
  {
    var t := TrimLeft(s);
    TrimLeftSpec(s);
    if t == [] then
      assert AllSpace(s) by { assert s[..|s|] == s; }
      None
    else
      assert !AllSpace(s) by { assert s[|s| - |t|] == t[0]; }
      Some(t[..TokenLength(t)])
  }

  /**
   * `split()[0]` is what follows the leading whitespace up to the next
   * whitespace or the end: a token without whitespace, then nothing or a
   * whitespace character.
   */
  lemma FirstTokenSpec(s: string) returns (p: string, q: string)
    requires !AllSpace(s)
    ensures FirstToken(s).Some?
    ensures AllSpace(p) && s == p + FirstToken(s).value + q
    ensures forall i | 0 <= i < |FirstToken(s).value| :: !IsSpace(FirstToken(s).value[i])
    ensures q == [] || IsSpace(q[0])
  {
    var t := TrimLeft(s);
    p := TrimLeftSplit(s);
    var token: string;
    token, q := TokenSplit(t);
    assert FirstToken(s) == Some(token);
    assert p + t == p + token + q;
  }

  /** `lstrip()` removes whitespace from the front only. */
  lemma TrimLeftSplit(s: string) returns (p: string)
    ensures AllSpace(p) && s == p + TrimLeft(s)
  {
    var t := TrimLeft(s);
    TrimLeftSpec(s);
    p := s[..|s| - |t|];
    assert s == p + t by { assert s == s[..|s| - |t|] + s[|s| - |t|..]; }
  }

  /** A text is its leading token followed by nothing or whitespace. */
  lemma TokenSplit(t: string) returns (token: string, q: string)
    ensures token == t[..TokenLength(t)] && t == token + q
    ensures forall i | 0 <= i < |token| :: !IsSpace(token[i])
    ensures q == [] || IsSpace(q[0])
  {
    var n := TokenLength(t);
    token, q := t[..n], t[n..];
    assert t == token + q;
    assert forall i | 0 <= i < |token| :: token[i] == t[i];
  }

  /** A word without whitespace, followed by nothing or whitespace, is the first token. */
  lemma FirstTokenOf(w: string, rest: string)
    requires w != [] && forall i | 0 <= i < |w| :: !IsSpace(w[i])
    requires rest == [] || IsSpace(rest[0])
    ensures FirstToken(w + rest) == Some(w)
  {
    var s := w + rest;
    TrimLeftSkips("", s);
    assert "" + s == s;
    var n := TokenLength(s);
    assert rest != [] ==> s[|w|] == rest[0];
    assert forall i | 0 <= i < |w| :: s[i] == w[i];
    assert n == |w|;
    assert s[..|w|] == w;
  }

  // ---------------------------------------------------------------------------
  // str.lower() and str.replace(c, "")
  // ---------------------------------------------------------------------------

  function LowerChar(c: char): char {
    if 'A' <= c <= 'Z' then (c as int + 32) as char else c
  }

  /** Python's `str.lower()`, on ASCII letters. */
  function Lower(s: string): (r: string)
    ensures |r| == |s|
    ensures forall i | 0 <= i < |s| :: r[i] == LowerChar(s[i])
  {
    if s == [] then [] else [LowerChar(s[0])] + Lower(s[1..])
  }

  /** Python's `s.replace(c, "")`: `s` with every `c` removed. */
  function RemoveChar(s: string, c: char): (r: string)
    ensures c !in r
    ensures |r| <= |s|
  {
    if s == [] then []
    else (if s[0] == c then [] else [s[0]]) + RemoveChar(s[1..], c)
  }

  /** Removing a character that does not occur changes nothing. */
  lemma {:induction false} RemoveAbsent(s: string, c: char)
    requires c !in s
    ensures RemoveChar(s, c) == s
    decreases |s|
  {
    if s != [] {
      RemoveAbsent(s[1..], c);
      assert s == [s[0]] + s[1..];
    }
  }

  /** Removing a character distributes over concatenation. */
  lemma {:induction false} RemoveCharAppend(s: string, t: string, c: char)
    ensures RemoveChar(s + t, c) == RemoveChar(s, c) + RemoveChar(t, c)
    decreases |s|
  {
    if s == [] {
      assert s + t == t;
    } else {
      var head := if s[0] == c then [] else [s[0]];
      RemoveCharAppend(s[1..], t, c);
      assert (s + t)[0] == s[0] && (s + t)[1..] == s[1..] + t;
      assert RemoveChar(s + t, c) == head + RemoveChar(s[1..] + t, c);
      assert RemoveChar(s, c) == head + RemoveChar(s[1..], c);
      var x, y := RemoveChar(s[1..], c), RemoveChar(t, c);
      assert head + (x + y) == (head + x) + y;
    }
  }

  // ---------------------------------------------------------------------------
  // str.isdigit() and int(s)
  // ---------------------------------------------------------------------------

  predicate IsDigit(c: char) {
    '0' <= c <= '9'
  }

  /** Python's `s.isdigit()` on ASCII: non-empty and only digits. */
  predicate IsDigits(s: string) {
    s != [] && forall i | 0 <= i < |s| :: IsDigit(s[i])
  }

  function DigitValue(c: char): nat
    requires IsDigit(c)
  {
    c as int - '0' as int
  }

  /** The decimal value of a string of digits. */
  function DigitsValue(s: string): nat
    requires forall i | 0 <= i < |s| :: IsDigit(s[i])
  {
    if s == [] then 0 else 10 * DigitsValue(s[..|s| - 1]) + DigitValue(s[|s| - 1])
  }

  /** Python's `int(s)` on ASCII digit strings; `None` stands for the ValueError otherwise. */
  function ParseNat(s: string): (r: Option<nat>)
    ensures r.Some? <==> s != [] && forall i | 0 <= i < |s| :: '0' <= s[i] <= '9'
  {
    if IsDigits(s) then Some(DigitsValue(s)) else None
  }

  function DigitChar(d: nat): char
    requires d < 10
  {
    ('0' as int + d) as char
  }

  /** The decimal rendering of `n`, without leading zeros (Python's `str(n)`). */
  function ShowNat(n: nat): (r: string)
    ensures IsDigits(r)
    ensures r[0] != '0' || n == 0
  {
    if n < 10 then [DigitChar(n)] else ShowNat(n / 10) + [DigitChar(n % 10)]
  }

  /** `int(str(n)) == n`. */
  lemma {:induction false} ParseShowNat(n: nat)
    ensures ParseNat(ShowNat(n)) == Some(n)
  {
    var s := ShowNat(n);
    if n < 10 {
      assert s[..0] == [];
      assert DigitsValue(s) == DigitValue(s[0]) == n;
    } else {
      ParseShowNat(n / 10);
      assert s[..|s| - 1] == ShowNat(n / 10);
      assert DigitsValue(ShowNat(n / 10)) == n / 10;
      assert DigitValue(s[|s| - 1]) == n % 10;
      assert DigitsValue(s) == 10 * (n / 10) + n % 10;
    }
  }
}
