/** Two Python `str` operations the upload filter relies on: `s.lower()`
    and `s.rsplit(sep, 1)`, with `rfind` as the search that `rsplit`
    performs. The third, `c in s` for a one-character needle, is Dafny's
    sequence membership `c in s`. */
module PyStr {

  predicate IsAsciiUpper(c: char) {
    'A' <= c <= 'Z'
  }

  /** U+212A KELVIN SIGN, the one character outside ASCII whose lower-case
      form is all ASCII: it lower-cases to 'k'. */
  const KELVIN_SIGN: char := '\U{212A}'

  /** The characters whose lower-case form is all ASCII and differs from
      themselves. */
  predicate FoldsToAscii(c: char) {
    IsAsciiUpper(c) || c == KELVIN_SIGN
  }

  /** Case folding of one character: `A`-`Z` and the Kelvin sign; every
      other character is left as it is. */
  function LowerChar(c: char): (r: char)
    ensures !FoldsToAscii(r)
    ensures IsAsciiUpper(c) ==> 'a' <= r <= 'z' && r as int - 'a' as int == c as int - 'A' as int
    ensures c == KELVIN_SIGN ==> r == 'k'
    ensures !FoldsToAscii(c) ==> r == c
  {
    if IsAsciiUpper(c) then (c as int - 'A' as int + 'a' as int) as char
    else if c == KELVIN_SIGN then 'k'
    else c
  }

  /** `s.lower()`: every character folded, the length and every
      non-letter (in particular every '.') left where it was. */
  function Lower(s: string): (r: string)
    ensures |r| == |s|
    ensures forall i :: 0 <= i < |s| ==> r[i] == LowerChar(s[i])
  {
    seq(|s|, i requires 0 <= i < |s| => LowerChar(s[i]))
  }

  lemma LowerIdempotent(s: string)
    ensures Lower(Lower(s)) == Lower(s)
  {
  }

  lemma LowerConcat(a: string, b: string)
    ensures Lower(a + b) == Lower(a) + Lower(b)
  {
  }

  /** A string with nothing to fold is its own lower-case form. */
  lemma LowerOfUnfolded(s: string)
    requires forall c :: c in s ==> !FoldsToAscii(c)
    ensures Lower(s) == s
  {
  }

  /** Folding never creates nor removes a character that is not an
      upper-case letter, so the separator of `rsplit` stays put. */
  lemma LowerKeeps(s: string, c: char)
    requires !FoldsToAscii(c) && !('a' <= c <= 'z')
    ensures forall i :: 0 <= i < |s| ==> (Lower(s)[i] == c <==> s[i] == c)
    ensures c in Lower(s) <==> c in s
  {
  }

  /** `s.rfind(c)`: the index of the last occurrence of `c`, or -1. */
  function RFind(s: string, c: char): (r: int)
    ensures -1 <= r < |s|
    ensures r >= 0 ==> s[r] == c
    ensures forall j :: r < j < |s| ==> s[j] != c
    decreases |s|
  {
    if |s| == 0 then -1
    else if s[|s| - 1] == c then |s| - 1
    else RFind(s[..|s| - 1], c)
  }

  /** An occurrence with no later occurrence is the one `rfind` returns. */
  lemma RFindUnique(s: string, c: char, i: int)
    requires 0 <= i < |s| && s[i] == c && c !in s[i + 1..]
    ensures RFind(s, c) == i
  {
  }

  /** `s.rsplit(sep, 1)` for a one-character separator: one part when
      `sep` does not occur, otherwise the text before and after its last
      occurrence; joining the parts with `sep` gives `s` back. */
  function RSplit1(s: string, sep: char): (parts: seq<string>)
    ensures 1 <= |parts| <= 2
    ensures |parts| == 1 <==> sep !in s
    ensures |parts| == 1 ==> parts[0] == s
    ensures |parts| == 2 ==> s == parts[0] + [sep] + parts[1] && sep !in parts[1]
  {
    var i := RFind(s, sep);
    if i < 0 then [s]
    else
      assert s == s[..i] + [sep] + s[i + 1..];
      [s[..i], s[i + 1..]]
  }

  /** The inverse direction: a string built as `p + sep + e` with no
      `sep` in `e` splits back into exactly `p` and `e`. */
  lemma {:induction false} RSplit1Join(p: string, sep: char, e: string)
    requires sep !in e
    ensures RSplit1(p + [sep] + e, sep) == [p, e]
  {
    var s := p + [sep] + e;
    assert s[|p| + 1..] == e;
    RFindUnique(s, sep, |p|);
    assert s[..|p|] == p;
  }

  /** Lower-casing first and splitting on '.' afterwards gives the
      lower-cased parts of the original split. */
  lemma {:induction false} RSplit1Lower(s: string)
    ensures |RSplit1(Lower(s), '.')| == |RSplit1(s, '.')|
    ensures forall k :: 0 <= k < |RSplit1(s, '.')| ==> RSplit1(Lower(s), '.')[k] == Lower(RSplit1(s, '.')[k])
  {
    var parts := RSplit1(s, '.');
    LowerKeeps(s, '.');
    if |parts| == 2 {
      var p, e := parts[0], parts[1];
      LowerConcat(p + ['.'], e);
      LowerConcat(p, ['.']);
      assert Lower(['.']) == ['.'];
      assert Lower(s) == Lower(p) + ['.'] + Lower(e);
      LowerKeeps(e, '.');
      RSplit1Join(Lower(p), '.', Lower(e));
    } else {
      assert '.' !in Lower(s);
    }
  }
}
