/** String helpers shared by the components: the small part of JavaScript's
    `String` API the application relies on (`toLowerCase`, `trim`,
    `split`, `join`, `startsWith`, `includes`, `filter(Boolean)`), written
    over `seq<char>`. */
module Text {

  // ---------------------------------------------------------------------
  // Characters
  // ---------------------------------------------------------------------

  /** ASCII lowercasing; every other character is left as it is. */
  function LowerChar(c: char): char {
    if 'A' <= c <= 'Z' then (c as int + 32) as char else c
  }

  function Lower(s: string): (r: string)
    ensures |r| == |s|
    ensures forall i :: 0 <= i < |s| ==> r[i] == LowerChar(s[i])
  {
    if |s| == 0 then "" else [LowerChar(s[0])] + Lower(s[1..])
  }

  /** The UTF-16 code units a character takes: two beyond U+FFFF. */
  function Utf16Units(c: char): nat {
    if c as int >= 0x1_0000 then 2 else 1
  }

  /** JavaScript's `s.length`, which counts UTF-16 code units, not
      characters. */
  function Utf16Length(s: string): (n: nat)
    ensures |s| <= n <= 2 * |s|
  {
    if |s| == 0 then 0 else Utf16Units(s[0]) + Utf16Length(s[1..])
  }

  /** On text inside the Basic Multilingual Plane `length` counts
      characters. */
  lemma {:induction false} Utf16LengthBmp(s: string)
    requires forall i :: 0 <= i < |s| ==> s[i] as int < 0x1_0000
    ensures Utf16Length(s) == |s|
  {
    if |s| > 0 {
      Utf16LengthBmp(s[1..]);
    }
  }

  /** No ASCII upper-case letter occurs in `s`. */
  predicate NoUpper(s: string) {
    forall i :: 0 <= i < |s| ==> !('A' <= s[i] <= 'Z')
  }

  /** Lower-casing leaves exactly the strings without upper-case letters alone. */
  lemma LowerFixed(s: string)
    ensures Lower(s) == s <==> NoUpper(s)
  {
    if NoUpper(s) {
      assert forall i :: 0 <= i < |s| ==> Lower(s)[i] == s[i];
    }
    if Lower(s) == s {
      assert forall i :: 0 <= i < |s| ==> LowerChar(s[i]) == s[i];
    }
  }

  /** The characters JavaScript's `trim` and `\s` treat as white space. */
  predicate IsSpace(c: char) {
    c == ' ' || c == '\t' || c == '\n' || c == '\r'
    || c == '\U{000B}' || c == '\U{000C}' || c == '\U{00A0}' || c == '\U{1680}'
    || ('\U{2000}' <= c <= '\U{200A}')
    || c == '\U{2028}' || c == '\U{2029}' || c == '\U{202F}' || c == '\U{205F}'
    || c == '\U{3000}' || c == '\U{FEFF}'
  }

  // ---------------------------------------------------------------------
  // Prefixes and substrings
  // ---------------------------------------------------------------------

  /** `s.startsWith(p)`. */
  predicate StartsWith(s: string, p: string) {
    |p| <= |s| && s[..|p|] == p
  }

  /** `s.endsWith(t)`. */
  predicate HasSuffix(s: string, t: string) {
    |t| <= |s| && s[|s| - |t|..] == t
  }

  /** `s.includes(t)`: `t` occurs somewhere in `s`. */
  predicate Includes(s: string, t: string)
    decreases |s|
  {
    StartsWith(s, t) || (|s| > 0 && Includes(s[1..], t))
  }

  /** `s.endsWith(c)` for a one-character suffix. */
  predicate EndsWith(s: string, c: char) {
    |s| > 0 && s[|s| - 1] == c
  }

  // ---------------------------------------------------------------------
  // Trimming
  // ---------------------------------------------------------------------

  function TrimStart(s: string): (r: string)
    ensures |r| <= |s| && r == s[|s| - |r|..]
    ensures r == "" || !IsSpace(r[0])
    ensures forall i :: 0 <= i < |s| - |r| ==> IsSpace(s[i])
  {
    if |s| > 0 && IsSpace(s[0]) then TrimStart(s[1..]) else s
  }

  function TrimEnd(s: string): (r: string)
    ensures |r| <= |s| && r == s[..|r|]
    ensures r == "" || !IsSpace(r[|r| - 1])
    ensures forall i :: |r| <= i < |s| ==> IsSpace(s[i])
  {
    if |s| > 0 && IsSpace(s[|s| - 1]) then TrimEnd(s[..|s| - 1]) else s
  }

  /** Neither end of `s` is white space. */
  predicate Trimmed(s: string) {
    s == "" || (!IsSpace(s[0]) && !IsSpace(s[|s| - 1]))
  }

  /** `s.trim()`. */
  function Trim(s: string): (r: string)
    ensures Trimmed(r)
    ensures Trimmed(s) ==> r == s
  {
    TrimEnd(TrimStart(s))
  }

  /** `s.trim()` is the slice of `s` left after dropping white space at
      both ends: everything before and after it is white space. */
  lemma TrimSlice(s: string)
    ensures |s| - |TrimStart(s)| + |Trim(s)| <= |s|
    ensures Trim(s) == s[|s| - |TrimStart(s)|..|s| - |TrimStart(s)| + |Trim(s)|]
    ensures forall i :: 0 <= i < |s| - |TrimStart(s)| ==> IsSpace(s[i])
    ensures forall i :: |s| - |TrimStart(s)| + |Trim(s)| <= i < |s| ==> IsSpace(s[i])
  {
    var t := TrimStart(s);
    SpacesAround(s, |s| - |t|, t, TrimEnd(t));
  }

  /** A prefix `r` of the suffix `t == s[k..]` is the slice `s[k..k + |r|]`,
      and what follows it in `t` follows it in `s`. */
  lemma SpacesAround(s: string, k: nat, t: string, r: string)
    requires k <= |s| && t == s[k..] && |r| <= |t| && r == t[..|r|]
    requires forall i :: |r| <= i < |t| ==> IsSpace(t[i])
    ensures k + |r| <= |s| && r == s[k..k + |r|]
    ensures forall i :: k + |r| <= i < |s| ==> IsSpace(s[i])
  {
    forall i | k + |r| <= i < |s|
      ensures IsSpace(s[i])
    {
      assert s[i] == t[i - k];
    }
  }

  /** Trimming discards leading white space. */
  lemma TrimLeadingSpace(c: char, s: string)
    requires IsSpace(c)
    ensures Trim([c] + s) == Trim(s)
  {
    assert ([c] + s)[1..] == s;
  }

  // ---------------------------------------------------------------------
  // Splitting and joining
  // ---------------------------------------------------------------------

  /** Position of the first white-space character of `s`, or `|s|`. */
  function FirstSpace(s: string): (r: nat)
    ensures r <= |s|
    ensures forall j :: 0 <= j < r ==> !IsSpace(s[j])
    ensures r < |s| ==> IsSpace(s[r])
  {
    if |s| == 0 || IsSpace(s[0]) then 0 else 1 + FirstSpace(s[1..])
  }

  /** `s.split(/\s+/)`: the pieces between runs of white space; a leading
      run gives an empty first piece and a trailing run an empty last one. */
  function SplitWs(s: string): (r: seq<string>)
    ensures |r| >= 1
    ensures forall i :: 0 <= i < |r| ==> forall j :: 0 <= j < |r[i]| ==> !IsSpace(r[i][j])
    decreases |s|
  {
    var i := FirstSpace(s);
    if i == |s| then [s]
    else
      var rest := TrimStart(s[i..]);
      [s[..i]] + SplitWs(rest)
  }

  /** `s.split(/\s+/)` has a single piece exactly when `s` has no white space. */
  lemma SplitWsSingle(s: string)
    ensures |SplitWs(s)| == 1 <==> forall j :: 0 <= j < |s| ==> !IsSpace(s[j])
    ensures |SplitWs(s)| == 1 ==> SplitWs(s)[0] == s
  {
  }

  /** Position of the first `c` in `s`, or `|s|` when there is none. */
  function IndexOf(s: string, c: char): (r: nat)
    ensures r <= |s|
    ensures forall j :: 0 <= j < r ==> s[j] != c
    ensures r < |s| ==> s[r] == c
    ensures r == |s| <==> c !in s
  {
    if |s| == 0 || s[0] == c then 0 else 1 + IndexOf(s[1..], c)
  }

  /** `s.split(c)` for a one-character separator: the pieces between the
      separators, always at least one, possibly empty. */
  function Split(s: string, c: char): (r: seq<string>)
    ensures |r| >= 1
    ensures forall i :: 0 <= i < |r| ==> c !in r[i]
    decreases |s|
  {
    var i := IndexOf(s, c);
    if i == |s| then [s] else [s[..i]] + Split(s[i + 1..], c)
  }

  /** `xs.join(sep)`. */
  function Join(xs: seq<string>, sep: string): string
    decreases |xs|
  {
    if |xs| == 0 then ""
    else if |xs| == 1 then xs[0]
    else xs[0] + sep + Join(xs[1..], sep)
  }

  /** Splitting then joining with the same separator gives back the input. */
  lemma {:induction false} JoinSplit(s: string, c: char)
    ensures Join(Split(s, c), [c]) == s
    decreases |s|
  {
    var i := IndexOf(s, c);
    if i < |s| {
      var rest := Split(s[i + 1..], c);
      JoinSplit(s[i + 1..], c);
      assert Split(s, c) == [s[..i]] + rest;
      assert s == s[..i] + [c] + s[i + 1..];
    }
  }

  /** A string with no separator splits into itself alone. */
  lemma SplitNoSeparator(s: string, c: char)
    requires c !in s
    ensures Split(s, c) == [s]
  {
  }

  /** Splitting `a c b`, where `a` has no `c`, gives `a` then the pieces of `b`. */
  lemma SplitCons(a: string, c: char, b: string)
    requires c !in a
    ensures Split(a + [c] + b, c) == [a] + Split(b, c)
  {
    var s := a + [c] + b;
    IndexOfFirst(a, c, b);
    assert s[..|a|] == a;
    assert s[|a| + 1..] == b;
  }

  lemma {:induction false} IndexOfFirst(a: string, c: char, b: string)
    requires c !in a
    ensures IndexOf(a + [c] + b, c) == |a|
    decreases |a|
  {
    if |a| > 0 {
      assert (a + [c] + b)[1..] == a[1..] + [c] + b;
      IndexOfFirst(a[1..], c, b);
    }
  }

  /** Start of the last `c`-separated piece of `s`: one past the last `c`,
      or 0 when `s` has none (see `LastPieceStartSpec`). */
  function LastPieceStart(s: string, c: char): (r: nat)
    ensures r <= |s|
    decreases |s|
  {
    var i := IndexOf(s, c);
    if i == |s| then 0 else i + 1 + LastPieceStart(s[i + 1..], c)
  }

  lemma {:induction false} LastPieceStartSpec(s: string, c: char)
    ensures var r := LastPieceStart(s, c);
            (r > 0 ==> s[r - 1] == c) && forall j :: r <= j < |s| ==> s[j] != c
    decreases |s|
  {
    var i := IndexOf(s, c);
    if i < |s| {
      var t := s[i + 1..];
      LastPieceStartSpec(t, c);
      var k := LastPieceStart(t, c);
      assert forall j :: i + 1 + k <= j < |s| ==> s[j] == t[j - i - 1];
    }
  }

  /** The last piece of `Split(s, c)` is exactly the text after the last
      `c`: putting it back in its own place rebuilds `s`. */
  lemma LastPiece(s: string, c: char)
    ensures Split(s, c)[|Split(s, c)| - 1] == s[LastPieceStart(s, c)..]
  {
    var parts := Split(s, c);
    var last := parts[|parts| - 1];
    assert parts[..|parts| - 1] + [last] == parts;
    JoinSplit(s, c);
    ReplaceLastPiece(s, c, last);
    var keep := s[..LastPieceStart(s, c)];
    assert s == keep + last;
    assert s[|keep|..] == last;
  }

  lemma LastOfCons<T>(x: T, rest: seq<T>)
    requires |rest| > 0
    ensures ([x] + rest)[|rest|] == rest[|rest| - 1]
  {
  }

  /** Dropping `a` then `b` elements drops `a + b`. */
  lemma DropDrop<T>(s: seq<T>, a: nat, b: nat)
    requires a + b <= |s|
    ensures s[a..][b..] == s[a + b..]
  {
  }

  /** The text with its last `c`-separated piece replaced by `w`. */
  function ReplaceLast(s: string, c: char, w: string): string {
    var parts := Split(s, c);
    Join(parts[..|parts| - 1] + [w], [c])
  }

  /** Replacing the last piece of `s` by `w` and joining again keeps every
      character of `s` up to and including its last separator, then `w`. */
  lemma {:induction false} ReplaceLastPiece(s: string, c: char, w: string)
    ensures ReplaceLast(s, c, w) == s[..LastPieceStart(s, c)] + w
    decreases |s|
  {
    var i := IndexOf(s, c);
    if i == |s| {
      ReplaceOnly(s, c, w);
    } else {
      ReplaceLastPiece(s[i + 1..], c, w);
      ReplaceStep(s, c, w, i);
    }
  }

  /** Without a separator the whole text is the last piece. */
  lemma ReplaceOnly(s: string, c: char, w: string)
    requires IndexOf(s, c) == |s|
    ensures ReplaceLast(s, c, w) == s[..LastPieceStart(s, c)] + w
  {
    var parts := Split(s, c);
    assert parts[..|parts| - 1] + [w] == [w];
  }

  /** The inductive step of `ReplaceLastPiece`: the claim for the text after
      the first separator gives it for the whole text. */
  lemma ReplaceStep(s: string, c: char, w: string, i: nat)
    requires i == IndexOf(s, c) < |s|
    requires ReplaceLast(s[i + 1..], c, w) == s[i + 1..][..LastPieceStart(s[i + 1..], c)] + w
    ensures ReplaceLast(s, c, w) == s[..LastPieceStart(s, c)] + w
  {
    var k := LastPieceStart(s[i + 1..], c);
    ReplaceLastCons(s, c, w, i);
    PrefixThrough(s, c, i, k);
    AppendAssoc(s[..i] + [c], s[i + 1..][..k], w);
  }

  /** Concatenation regroups freely; stated once so proofs can name the step. */
  lemma AppendAssoc<T>(a: seq<T>, b: seq<T>, d: seq<T>)
    ensures a + (b + d) == a + b + d
  {
  }

  /** Replacing the last piece leaves the first piece and its separator in
      front of the rest. */
  lemma ReplaceLastCons(s: string, c: char, w: string, i: nat)
    requires i == IndexOf(s, c) < |s|
    ensures ReplaceLast(s, c, w) == s[..i] + [c] + ReplaceLast(s[i + 1..], c, w)
  {
    var parts, rest := Split(s, c), Split(s[i + 1..], c);
    assert parts == [s[..i]] + rest;
    assert |parts| - 1 == |rest|;
    calc {
      ReplaceLast(s, c, w);
      Join(parts[..|parts| - 1] + [w], [c]);
      Join(([s[..i]] + rest)[..|rest|] + [w], [c]);
      { DropLastCons(s[..i], rest, w, [c]); }
      s[..i] + [c] + Join(rest[..|rest| - 1] + [w], [c]);
      s[..i] + [c] + ReplaceLast(s[i + 1..], c, w);
    }
  }

  /** Replacing the last element of a list with a head in front joins to the
      head, the separator, and the tail with its last element replaced. */
  lemma DropLastCons(x: string, rest: seq<string>, w: string, sep: string)
    requires |rest| >= 1
    ensures Join(([x] + rest)[..|rest|] + [w], sep) == x + sep + Join(rest[..|rest| - 1] + [w], sep)
  {
    var ys := rest[..|rest| - 1] + [w];
    assert ([x] + rest)[..|rest|] + [w] == [x] + ys;
    JoinCons(x, ys, sep);
  }

  lemma PrefixThrough(s: string, c: char, i: nat, k: nat)
    requires i == IndexOf(s, c) < |s|
    requires k == LastPieceStart(s[i + 1..], c)
    ensures s[..LastPieceStart(s, c)] == s[..i] + [c] + s[i + 1..][..k]
  {
    assert LastPieceStart(s, c) == i + 1 + k;
    SliceAround(s, i, k);
  }

  /** Cutting `s` after position `i + 1 + k` is the part before `i`, the
      character at `i`, and the first `k` characters after it. */
  lemma SliceAround(s: string, i: nat, k: nat)
    requires i < |s| && i + 1 + k <= |s|
    ensures s[..i + 1 + k] == s[..i] + [s[i]] + s[i + 1..][..k]
  {
    var lhs, rhs := s[..i + 1 + k], s[..i] + [s[i]] + s[i + 1..][..k];
    assert |lhs| == |rhs|;
    forall m | 0 <= m < |lhs|
      ensures lhs[m] == rhs[m]
    {
      if m > i {
        assert rhs[m] == s[i + 1..][m - i - 1];
      }
    }
  }

  lemma JoinCons(x: string, ys: seq<string>, sep: string)
    requires |ys| >= 1
    ensures Join([x] + ys, sep) == x + sep + Join(ys, sep)
  {
    assert ([x] + ys)[1..] == ys;
  }

  // ---------------------------------------------------------------------
  // Comma lists
  // ---------------------------------------------------------------------

  /** `xs.map(x => x.trim())`. */
  function TrimAll(xs: seq<string>): (r: seq<string>)
    ensures |r| == |xs|
    ensures forall i :: 0 <= i < |xs| ==> r[i] == Trim(xs[i])
  {
    if |xs| == 0 then [] else [Trim(xs[0])] + TrimAll(xs[1..])
  }

  /** `xs.filter(Boolean)` on strings: drop the empty ones, keep the order. */
  function NonEmpty(xs: seq<string>): (r: seq<string>)
    ensures |r| <= |xs|
    ensures forall x :: x in r ==> x != "" && x in xs
    ensures forall x :: x in xs && x != "" ==> x in r
  {
    if |xs| == 0 then []
    else if xs[0] == "" then NonEmpty(xs[1..])
    else [xs[0]] + NonEmpty(xs[1..])
  }

  /** `text.split(',').map(s => s.trim()).filter(Boolean)`: the comma list
      parser used by the admin editor, the settings form and the setup wizard. */
  function ParseList(text: string): (r: seq<string>)
    ensures forall x :: x in r ==> x != "" && Trimmed(x) && ',' !in x
  {
    NonEmpty(TrimAll(Split(text, ',')))
  }

  /** A list item that survives a `", "` join and a re-parse unchanged. */
  predicate ListItem(x: string) {
    x != "" && Trimmed(x) && ',' !in x
  }

  /** Showing a list as its `", "`-join and parsing that text back gives the
      same list, for items that are non-empty, trimmed and comma-free. */
  lemma {:induction false} ParseJoinedList(xs: seq<string>)
    requires forall i :: 0 <= i < |xs| ==> ListItem(xs[i])
    ensures ParseList(Join(xs, ", ")) == xs
    decreases |xs|
  {
    if |xs| == 0 {
      assert Split("", ',') == [""];
    } else if |xs| == 1 {
      SplitNoSeparator(xs[0], ',');
    } else {
      var tail := Join(xs[1..], ", ");
      assert Join(xs, ", ") == xs[0] + [','] + (" " + tail);
      SplitCons(xs[0], ',', " " + tail);
      ParseJoinedList(xs[1..]);
      var pieces := Split(" " + tail, ',');
      var tailPieces := Split(tail, ',');
      SplitLeadingSpace(tail);
      assert TrimAll(pieces) == TrimAll(tailPieces);
      assert Split(Join(xs, ", "), ',') == [xs[0]] + pieces;
      assert TrimAll([xs[0]] + pieces) == [xs[0]] + TrimAll(pieces);
    }
  }

  /** A leading space only changes the first piece, and trimming undoes it. */
  lemma SplitLeadingSpace(t: string)
    ensures TrimAll(Split(" " + t, ',')) == TrimAll(Split(t, ','))
  {
    var i := IndexOf(t, ',');
    if i == |t| {
      SplitNoSeparator(t, ',');
      SplitNoSeparator(" " + t, ',');
      TrimLeadingSpace(' ', t);
    } else {
      var a := t[..i];
      var b := t[i + 1..];
      LeadingSpaceCons(t, a, b);
      TrimLeadingSpace(' ', a);
      TrimAllCons(" " + a, Split(b, ','));
      TrimAllCons(a, Split(b, ','));
    }
  }

  lemma LeadingSpaceCons(t: string, a: string, b: string)
    requires IndexOf(t, ',') < |t|
    requires a == t[..IndexOf(t, ',')] && b == t[IndexOf(t, ',') + 1..]
    ensures Split(t, ',') == [a] + Split(b, ',')
    ensures Split(" " + t, ',') == [" " + a] + Split(b, ',')
  {
    assert t == a + [','] + b;
    SplitCons(a, ',', b);
    assert " " + t == (" " + a) + [','] + b;
    SplitCons(" " + a, ',', b);
  }

  lemma TrimAllCons(x: string, xs: seq<string>)
    ensures TrimAll([x] + xs) == [Trim(x)] + TrimAll(xs)
  {
    assert ([x] + xs)[1..] == xs;
  }
}
