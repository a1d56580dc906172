/**
 * Models of the few JavaScript built-ins the command-line front end leans on:
 * `String.prototype.trim` and `Array.prototype.join`, together with the
 * Option and Result wrappers used by every other module.
 */
module Text {

  datatype Option<+T> = None | Some(value: T)

  datatype Result<+T, +E> = Success(value: T) | Failure(error: E)

  /** The characters ECMAScript's `trim` removes: WhiteSpace and LineTerminator. */
  predicate IsJsSpace(c: char) {
    || c == '\t' || c == '\n' || c == '\U{B}' || c == '\U{C}' || c == '\r'
    || c == ' ' || c == '\U{A0}' || c == '\U{1680}'
    || ('\U{2000}' <= c <= '\U{200A}')
    || c == '\U{2028}' || c == '\U{2029}' || c == '\U{202F}' || c == '\U{205F}'
    || c == '\U{3000}' || c == '\U{FEFF}'
  }

  predicate AllSpace(s: string) {
    forall i :: 0 <= i < |s| ==> IsJsSpace(s[i])
  }

  /** A string `trim` leaves unchanged: empty, or starting and ending with a non-space. */
  predicate IsTrimmed(s: string) {
    s == [] || (!IsJsSpace(s[0]) && !IsJsSpace(s[|s| - 1]))
  }

  /** Number of leading whitespace characters. */
  function LeadingSpace(s: string): (k: nat)
    ensures k <= |s|
    ensures AllSpace(s[..k])
    ensures k < |s| ==> !IsJsSpace(s[k])
  {
    if s == [] || !IsJsSpace(s[0]) then 0
    else
      var k := 1 + LeadingSpace(s[1..]);
      assert s[..k] == [s[0]] + s[1..][..k - 1];
      k
  }

  /** Length of `s` once its trailing whitespace is dropped. */
  function WithoutTrailingSpace(s: string): (k: nat)
    ensures k <= |s|
    ensures AllSpace(s[k..])
    ensures 0 < k ==> !IsJsSpace(s[k - 1])
  {
    if s == [] || !IsJsSpace(s[|s| - 1]) then |s|
    else
      var k := WithoutTrailingSpace(s[..|s| - 1]);
      assert s[k..] == s[..|s| - 1][k..] + [s[|s| - 1]];
      k
  }

  /** `s.trim()`: `s` without its leading and trailing whitespace. */
  function Trim(s: string): (r: string)
    ensures IsTrimmed(r)
    ensures IsTrimmed(s) ==> r == s
  {
    var a := LeadingSpace(s);
    var b := a + WithoutTrailingSpace(s[a..]);
    assert s[a..][..b - a] == s[a..b];
    assert IsTrimmed(s) && s != [] ==> a == 0 && b == |s|;
    s[a..b]
  }

  /** `trim` removes whitespace at both ends and nothing else. */
  lemma TrimRemovesOnlySpace(s: string)
    ensures exists a, b :: 0 <= a <= b <= |s| && Trim(s) == s[a..b] && AllSpace(s[..a]) && AllSpace(s[b..])
    ensures AllSpace(s) ==> Trim(s) == []
  {
    var a := LeadingSpace(s);
    var rest := s[a..];
    var k := WithoutTrailingSpace(rest);
    var b := a + k;
    assert Trim(s) == s[a..b] by {
      assert rest[..k] == s[a..b];
    }
    assert AllSpace(s[b..]) by {
      assert rest[k..] == s[b..];
    }
    assert AllSpace(s) ==> a == |s|;
  }

  /** `Trim(" " + w)` drops the separator a leading blank name leaves behind. */
  lemma TrimAfterBlank(w: string)
    ensures Trim(" " + w) == Trim(w)
  {
    var s := " " + w;
    assert s[1..] == w;
    assert LeadingSpace(s) == 1 + LeadingSpace(w);
    assert s[LeadingSpace(s)..] == w[LeadingSpace(w)..];
  }

  /** The blank that `[ name, '' ].join(' ')` puts after a trimmed name is removed by `trim`. */
  lemma TrimBeforeBlank(w: string)
    requires IsTrimmed(w)
    ensures Trim(w + " ") == w
  {
    var s := w + " ";
    if w == [] {
      assert AllSpace(s);
      TrimRemovesOnlySpace(s);
    } else {
      assert s[0] == w[0] && s[..|s| - 1] == w;
      assert LeadingSpace(s) == 0;
      assert WithoutTrailingSpace(s) == |w|;
      assert s[0..|w|] == w;
    }
  }

  /** `ws.join(sep)`: the elements of `ws` with `sep` between each neighbouring pair. */
  function Join(ws: seq<string>, sep: string): string {
    if |ws| == 0 then ""
    else if |ws| == 1 then ws[0]
    else Join(ws[..|ws| - 1], sep) + sep + ws[|ws| - 1]
  }

  lemma JoinPair(a: string, b: string, sep: string)
    ensures Join([a, b], sep) == a + sep + b
  {
    assert [a, b][..1] == [a];
  }

  lemma JoinTriple(a: string, b: string, c: string, sep: string)
    ensures Join([a, b, c], sep) == a + sep + b + sep + c
  {
    assert [a, b, c][..2] == [a, b];
    JoinPair(a, b, sep);
  }

  function Max(a: int, b: int): (m: int)
    ensures a <= m && b <= m && (m == a || m == b)
  {
    if a < b then b else a
  }
}
