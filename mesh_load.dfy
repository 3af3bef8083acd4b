/**
 * The Wavefront OBJ loader of src/geom/surf/mesh.rs (`Mesh::load`), over the
 * lines of the file. Vertices come from "v " lines, normals from "vn " lines
 * and one triangle from each "f " line written as `f a//na b//nb c//nc` with
 * indices counted from one. Every `unwrap` that fails in the source is a
 * panic; here it is an `Err`. Parsing a float token is given.
 */
module MeshLoad {
  import opened Wrappers
  import opened Vectors
  import opened Boxes
  import Meshes

  /** The largest `usize` on a 64-bit target. */
  const USIZE_MAX: nat := 0xFFFF_FFFF_FFFF_FFFF

  /** A face: three vertex indices and three normal indices, counted from zero. */
  datatype Face = Face(a: nat, b: nat, c: nat, na: nat, nb: nat, nc: nat)

  /** Why loading stops; each stands for a panic of the source. */
  datatype LoadError = BadVertex | BadNormal | BadFace | BadIndex | NoFaces

  // ---------------------------------------------------------------- strings

  /** Rust's `char::is_whitespace`: the characters with the Unicode White_Space property. */
  predicate IsWhitespace(c: char) {
    || c == ' ' || ('\t' <= c <= '\r') || c == '\U{85}' || c == '\U{A0}' || c == '\U{1680}'
    || ('\U{2000}' <= c <= '\U{200A}') || c == '\U{2028}' || c == '\U{2029}' || c == '\U{202F}'
    || c == '\U{205F}' || c == '\U{3000}'
  }

  predicate StartsWith(s: string, prefix: string) {
    |prefix| <= |s| && s[..|prefix|] == prefix
  }

  /** A word: a non-empty run of characters none of which is whitespace. */
  predicate IsWord(w: string) {
    |w| > 0 && forall i | 0 <= i < |w| :: !IsWhitespace(w[i])
  }

  /** The end of the word that starts at `i`: the next whitespace or the end of the string. */
  function WordEnd(s: string, i: nat): (e: nat)
    requires i <= |s|
    ensures i <= e <= |s|
    ensures forall k | i <= k < e :: !IsWhitespace(s[k])
    ensures e < |s| ==> IsWhitespace(s[e])
    decreases |s| - i
  {
    if i == |s| || IsWhitespace(s[i]) then i else WordEnd(s, i + 1)
  }

  /** `str::split_whitespace`: the words of `s`, in order. */
  function Words(s: string): (ws: seq<string>)
    ensures forall k | 0 <= k < |ws| :: IsWord(ws[k])
    decreases |s|
  {
    if |s| == 0 then []
    else if IsWhitespace(s[0]) then Words(s[1..])
    else
      var e := WordEnd(s, 0);
      [s[..e]] + Words(s[e..])
  }

  /** A word followed by a space splits off as the first word. */
  lemma WordsCons(w: string, rest: string)
    requires IsWord(w)
    ensures Words(w + (" " + rest)) == [w] + Words(rest)
  {
    var s := w + (" " + rest);
    WordEndAt(s, w);
    assert s[..|w|] == w;
    assert s[|w|..] == " " + rest;
    assert (" " + rest)[1..] == rest;
  }

  /** A single word is its own only word. */
  lemma WordsOne(w: string)
    requires IsWord(w)
    ensures Words(w) == [w]
  {
    WordEndAt(w, w);
    assert w[..|w|] == w && w[|w|..] == [];
  }

  lemma {:induction false} WordEndAt(s: string, w: string)
    requires IsWord(w) && |w| <= |s| && s[..|w|] == w
    requires |w| < |s| ==> IsWhitespace(s[|w|])
    ensures WordEnd(s, 0) == |w|
  {
    WordEndFrom(s, 0, |w|);
  }

  lemma {:induction false} WordEndFrom(s: string, i: nat, e: nat)
    requires i <= e <= |s|
    requires forall k | i <= k < e :: !IsWhitespace(s[k])
    requires e < |s| ==> IsWhitespace(s[e])
    ensures WordEnd(s, i) == e
    decreases e - i
  {
    if i < e {
      WordEndFrom(s, i + 1, e);
    }
  }

  /** `str::replace("//", " ")`: replaces each double slash, scanning from the left without overlaps. */
  function ReplaceSlashes(s: string): (r: string)
    ensures |r| <= |s|
  {
    if |s| < 2 then s
    else if s[0] == '/' && s[1] == '/' then " " + ReplaceSlashes(s[2..])
    else [s[0]] + ReplaceSlashes(s[1..])
  }

  /** Text holding no slash passes through the replacement unchanged. */
  lemma {:induction false} ReplaceSlashesKeeps(x: string, rest: string)
    requires forall i | 0 <= i < |x| :: x[i] != '/'
    ensures ReplaceSlashes(x + rest) == x + ReplaceSlashes(rest)
  {
    if |x| > 0 {
      var s := x + rest;
      assert s[1..] == x[1..] + rest;
      ReplaceSlashesKeeps(x[1..], rest);
      ReplaceNoSlash(s);
      HeadTail(x, ReplaceSlashes(rest));
    } else {
      assert x + rest == rest;
    }
  }

  // ---------------------------------------------------------------- integers

  predicate IsDigit(c: char) { '0' <= c <= '9' }

  function DigitValue(c: char): nat
    requires IsDigit(c)
  {
    (c as int) - ('0' as int)
  }

  /** The value of a string of decimal digits, most significant first. */
  function DigitsValue(d: string): nat
    requires forall i | 0 <= i < |d| :: IsDigit(d[i])
  {
    if |d| == 0 then 0 else DigitsValue(d[..|d| - 1]) * 10 + DigitValue(d[|d| - 1])
  }

  /**
   * `str::parse::<usize>`: an optional `+`, then one or more decimal digits
   * whose value fits in a `usize`.
   */
  function ParseUsize(s: string): (r: Option<nat>)
    ensures r.Some? ==> r.value <= USIZE_MAX
    ensures r.Some? ==> |s| > 0 && (s[0] == '+' || IsDigit(s[0]))
  {
    var d := if |s| > 0 && s[0] == '+' then s[1..] else s;
    if |d| == 0 || exists i | 0 <= i < |d| :: !IsDigit(d[i]) then None
    else if DigitsValue(d) > USIZE_MAX then None
    else Some(DigitsValue(d))
  }

  /** The decimal digit for a value below ten. */
  function Digit(n: nat): (c: char)
    requires n < 10
    ensures IsDigit(c) && DigitValue(c) == n
  {
    ('0' as int + n) as char
  }

  /** The decimal rendering of `n`, without sign or leading zeros. */
  function ShowNat(n: nat): (s: string)
    ensures |s| > 0 && forall i | 0 <= i < |s| :: IsDigit(s[i])
  {
    if n < 10 then [Digit(n)] else ShowNat(n / 10) + [Digit(n % 10)]
  }

  /** The digits of a rendered number read back as the number. */
  lemma {:induction false} ShowNatValue(n: nat)
    ensures DigitsValue(ShowNat(n)) == n
  {
    if n >= 10 {
      var s := ShowNat(n);
      assert s[..|s| - 1] == ShowNat(n / 10);
      ShowNatValue(n / 10);
    }
  }

  /** Parsing a rendered index gives the index back. */
  lemma ParseUsizeShow(n: nat)
    requires n <= USIZE_MAX
    ensures ParseUsize(ShowNat(n)) == Some(n)
  {
    ShowNatValue(n);
  }

  /** A leading `+` is accepted and ignored. */
  lemma ParseUsizePlus(n: nat)
    requires n <= USIZE_MAX
    ensures ParseUsize("+" + ShowNat(n)) == Some(n)
  {
    ShowNatValue(n);
    assert ("+" + ShowNat(n))[1..] == ShowNat(n);
  }

  // ---------------------------------------------------------------- lines

  /** The lines that start with `prefix`, in file order. */
  function Filter(lines: seq<string>, prefix: string): (r: seq<string>)
    ensures forall k | 0 <= k < |r| :: StartsWith(r[k], prefix) && r[k] in lines
    ensures forall l | l in lines && StartsWith(l, prefix) :: l in r
  {
    if |lines| == 0 then []
    else
      var rest := Filter(lines[1..], prefix);
      if StartsWith(lines[0], prefix) then [lines[0]] + rest else rest
  }

  /** Filtering distributes over concatenation: kept lines stay in file order, each as often as it occurs. */
  lemma {:induction false} FilterAppend(a: seq<string>, b: seq<string>, prefix: string)
    ensures Filter(a + b, prefix) == Filter(a, prefix) + Filter(b, prefix)
    decreases |a|
  {
    if |a| == 0 {
      assert a + b == b;
    } else {
      assert (a + b)[0] == a[0];
      assert (a + b)[1..] == a[1..] + b;
      FilterAppend(a[1..], b, prefix);
    }
  }

  /** A single line is kept exactly when it starts with the prefix. */
  lemma FilterOne(l: string, prefix: string)
    ensures Filter([l], prefix) == if StartsWith(l, prefix) then [l] else []
  {
  }

  /**
   * One "v " or "vn " line: the first word is skipped and the next three are
   * parsed as floats; any further words are ignored.
   */
  function ParseTriple(line: string, parseFloat: string -> Option<real>): (r: Option<Vec3>)
    ensures r.Some? ==> |Words(line)| >= 4
  {
    var ws := Words(line);
    if |ws| < 4 then None
    else
      var x, y, z := parseFloat(ws[1]), parseFloat(ws[2]), parseFloat(ws[3]);
      if x.None? || y.None? || z.None? then None else Some(Vec3(x.value, y.value, z.value))
  }

  /**
   * One index of a face line: parsed as a `usize` and reduced by one. A zero
   * index overflows the subtraction and panics.
   */
  function ParseIndex(w: string): (r: Option<nat>)
    ensures r.Some? ==> r.value < USIZE_MAX
  {
    var n := ParseUsize(w);
    if n.None? || n.value == 0 then None else Some(n.value - 1)
  }

  /** An index rendered counted from one parses back counted from zero. */
  lemma ParseIndexShow(n: nat)
    requires n < USIZE_MAX
    ensures ParseIndex(ShowNat(n + 1)) == Some(n)
  {
    ParseUsizeShow(n + 1);
  }

  /**
   * One "f " line: double slashes become spaces, the first word is skipped
   * and the next six are read as `a na b nb c nc`; further words are ignored.
   */
  function ParseFace(line: string): (r: Option<Face>)
  {
    ParseFaceWords(Words(ReplaceSlashes(line)))
  }

  /** The face named by the words of a face line, the first word being skipped. */
  function ParseFaceWords(ws: seq<string>): (r: Option<Face>)
    ensures r.Some? ==> |ws| >= 7
  {
    if |ws| < 7 then None
    else
      var a, na, b, nb, c, nc := ParseIndex(ws[1]), ParseIndex(ws[2]), ParseIndex(ws[3]), ParseIndex(ws[4]), ParseIndex(ws[5]), ParseIndex(ws[6]);
      if a.None? || na.None? || b.None? || nb.None? || c.None? || nc.None? then None
      else Some(Face(a.value, b.value, c.value, na.value, nb.value, nc.value))
  }

  /** Words joined by single spaces. */
  function JoinSpaced(ws: seq<string>): string
  {
    if |ws| == 0 then "" else if |ws| == 1 then ws[0] else ws[0] + (" " + JoinSpaced(ws[1..]))
  }

  /** Splitting words joined by single spaces gives the words back. */
  lemma {:induction false} WordsOfJoined(ws: seq<string>)
    requires |ws| > 0 && forall k | 0 <= k < |ws| :: IsWord(ws[k])
    ensures Words(JoinSpaced(ws)) == ws
  {
    if |ws| == 1 {
      WordsOne(ws[0]);
    } else {
      WordsOfJoined(ws[1..]);
      WordsCons(ws[0], JoinSpaced(ws[1..]));
      assert [ws[0]] + ws[1..] == ws;
    }
  }

  /** The replacement never matches across a space, so it works on each side separately. */
  lemma {:induction false} ReplaceAroundSpace(t: string, rest: string)
    ensures ReplaceSlashes(t + (" " + rest)) == ReplaceSlashes(t) + (" " + ReplaceSlashes(rest))
    decreases |t|
  {
    var s := t + (" " + rest);
    if |t| == 0 {
      assert s == " " + rest;
      ReplaceSpaceFirst(rest);
    } else if |t| == 1 {
      assert s[1..] == " " + rest;
      ReplaceOther(s);
      ReplaceSpaceFirst(rest);
    } else if t[0] == '/' && t[1] == '/' {
      assert s[2..] == t[2..] + (" " + rest);
      ReplaceAroundSpace(t[2..], rest);
      ReplaceDouble(s);
      ReplaceDouble(t);
    } else {
      assert s[1..] == t[1..] + (" " + rest);
      ReplaceAroundSpace(t[1..], rest);
      ReplaceOther(s);
      ReplaceOther(t);
    }
  }

  lemma ReplaceSpaceFirst(rest: string)
    ensures ReplaceSlashes(" " + rest) == " " + ReplaceSlashes(rest)
  {
    if |rest| > 0 {
      assert (" " + rest)[1..] == rest;
    }
  }

  lemma HeadTail<T>(x: seq<T>, y: seq<T>)
    requires |x| > 0
    ensures [x[0]] + (x[1..] + y) == x + y
  {
    assert x == [x[0]] + x[1..];
  }

  lemma ReplaceNoSlash(s: string)
    requires |s| > 0 && s[0] != '/'
    ensures ReplaceSlashes(s) == [s[0]] + ReplaceSlashes(s[1..])
  {
    if |s| < 2 {
      assert s[1..] == [];
    }
  }

  lemma ReplaceDouble(s: string)
    requires |s| >= 2 && s[0] == '/' && s[1] == '/'
    ensures ReplaceSlashes(s) == " " + ReplaceSlashes(s[2..])
  {
  }

  lemma ReplaceOther(s: string)
    requires |s| >= 2 && !(s[0] == '/' && s[1] == '/')
    ensures ReplaceSlashes(s) == [s[0]] + ReplaceSlashes(s[1..])
  {
  }

  /** A vertex index and a normal index as a face line writes them: `a//na`. */
  function Pair(a: string, na: string): string { a + ("//" + na) }

  /** The face line an exporter writes for a face: `f a//na b//nb c//nc`, counted from one. */
  function FaceLine(f: Face): string {
    JoinSpaced(["f", Pair(ShowNat(f.a + 1), ShowNat(f.na + 1)), Pair(ShowNat(f.b + 1), ShowNat(f.nb + 1)),
      Pair(ShowNat(f.c + 1), ShowNat(f.nc + 1))])
  }

  /** The double slash of a pair of slash-free indices becomes a space. */
  lemma ReplacePair(x: string, y: string)
    requires forall i | 0 <= i < |x| :: x[i] != '/'
    requires forall i | 0 <= i < |y| :: y[i] != '/'
    ensures ReplaceSlashes(Pair(x, y)) == x + (" " + y)
  {
    ReplaceSlashesKeeps(x, "//" + y);
    assert ("//" + y)[2..] == y;
    ReplaceSlashesKeeps(y, []);
    assert y + [] == y;
  }

  lemma Regroup(x: string, y: string, z: string)
    ensures (x + (" " + y)) + (" " + z) == x + (" " + (y + (" " + z)))
  {
  }

  /** Replacing the double slashes of a face line gives its seven words separated by spaces. */
  lemma {:induction false} ReplaceFaceLine(a: string, na: string, b: string, nb: string, c: string, nc: string)
    requires forall i | 0 <= i < |a| :: a[i] != '/'
    requires forall i | 0 <= i < |na| :: na[i] != '/'
    requires forall i | 0 <= i < |b| :: b[i] != '/'
    requires forall i | 0 <= i < |nb| :: nb[i] != '/'
    requires forall i | 0 <= i < |c| :: c[i] != '/'
    requires forall i | 0 <= i < |nc| :: nc[i] != '/'
    ensures ReplaceSlashes(JoinSpaced(["f", Pair(a, na), Pair(b, nb), Pair(c, nc)]))
         == JoinSpaced(["f", a, na, b, nb, c, nc])
  {
    var p1, p2, p3 := Pair(a, na), Pair(b, nb), Pair(c, nc);
    var j3 := JoinSpaced([p3]);
    var j2 := JoinSpaced([p2, p3]);
    var j1 := JoinSpaced([p1, p2, p3]);
    assert [p2, p3][1..] == [p3];
    assert [p1, p2, p3][1..] == [p2, p3];
    assert ["f", p1, p2, p3][1..] == [p1, p2, p3];
    ReplacePair(a, na);
    ReplacePair(b, nb);
    ReplacePair(c, nc);
    ReplaceAroundSpace(p2, p3);
    ReplaceAroundSpace(p1, j2);
    ReplaceAroundSpace("f", j1);
    assert ReplaceSlashes("f") == "f";
    var k5 := JoinSpaced([c, nc]);
    var k3 := JoinSpaced([b, nb, c, nc]);
    var k1 := JoinSpaced([a, na, b, nb, c, nc]);
    assert [nc] == [c, nc][1..];
    assert [c, nc] == [nb, c, nc][1..] && [nb, c, nc] == [b, nb, c, nc][1..];
    assert [b, nb, c, nc] == [na, b, nb, c, nc][1..] && [na, b, nb, c, nc] == [a, na, b, nb, c, nc][1..];
    assert [a, na, b, nb, c, nc] == ["f", a, na, b, nb, c, nc][1..];
    assert j3 == p3;
    assert j2 == p2 + (" " + p3);
    assert j1 == p1 + (" " + j2);
    assert JoinSpaced([nc]) == nc;
    assert k5 == c + (" " + nc);
    assert ReplaceSlashes(j2) == ReplaceSlashes(p2) + (" " + ReplaceSlashes(p3));
    assert ReplaceSlashes(j2) == (b + (" " + nb)) + (" " + k5);
    Regroup(b, nb, k5);
    assert JoinSpaced([nb, c, nc]) == nb + (" " + k5);
    assert k3 == b + (" " + (nb + (" " + k5)));
    assert ReplaceSlashes(j2) == k3;
    assert ReplaceSlashes(j1) == (a + (" " + na)) + (" " + k3);
    Regroup(a, na, k3);
    assert JoinSpaced([na, b, nb, c, nc]) == na + (" " + k3);
    assert k1 == a + (" " + (na + (" " + k3)));
    assert ReplaceSlashes(j1) == k1;
  }

  /** Parsing the line written for a face gives the face back. */
  lemma FaceLineRoundTrip(f: Face)
    requires f.a < USIZE_MAX && f.b < USIZE_MAX && f.c < USIZE_MAX
    requires f.na < USIZE_MAX && f.nb < USIZE_MAX && f.nc < USIZE_MAX
    ensures ParseFace(FaceLine(f)) == Some(f)
  {
    FaceLineWords(f);
    ParseFaceOfWords(Words(ReplaceSlashes(FaceLine(f))), f);
  }

  /** The words of a face line after the replacement: `f` and the six indices. */
  lemma FaceLineWords(f: Face)
    ensures Words(ReplaceSlashes(FaceLine(f)))
         == ["f", ShowNat(f.a + 1), ShowNat(f.na + 1), ShowNat(f.b + 1), ShowNat(f.nb + 1), ShowNat(f.c + 1), ShowNat(f.nc + 1)]
  {
    var a, na, b, nb, c, nc := ShowNat(f.a + 1), ShowNat(f.na + 1), ShowNat(f.b + 1), ShowNat(f.nb + 1), ShowNat(f.c + 1), ShowNat(f.nc + 1);
    NoSlash(a); NoSlash(na); NoSlash(b); NoSlash(nb); NoSlash(c); NoSlash(nc);
    ReplaceFaceLine(a, na, b, nb, c, nc);
    var ws := ["f", a, na, b, nb, c, nc];
    assert IsWord("f");
    DigitsAreWord(a); DigitsAreWord(na); DigitsAreWord(b); DigitsAreWord(nb); DigitsAreWord(c); DigitsAreWord(nc);
    WordsOfJoined(ws);
  }

  lemma ParseFaceOfWords(ws: seq<string>, f: Face)
    requires f.a < USIZE_MAX && f.b < USIZE_MAX && f.c < USIZE_MAX
    requires f.na < USIZE_MAX && f.nb < USIZE_MAX && f.nc < USIZE_MAX
    requires ws == ["f", ShowNat(f.a + 1), ShowNat(f.na + 1), ShowNat(f.b + 1), ShowNat(f.nb + 1), ShowNat(f.c + 1), ShowNat(f.nc + 1)]
    ensures ParseFaceWords(ws) == Some(f)
  {
    assert ParseIndex(ws[1]) == Some(f.a) by { ParseIndexShow(f.a); }
    assert ParseIndex(ws[2]) == Some(f.na) by { ParseIndexShow(f.na); }
    assert ParseIndex(ws[3]) == Some(f.b) by { ParseIndexShow(f.b); }
    assert ParseIndex(ws[4]) == Some(f.nb) by { ParseIndexShow(f.nb); }
    assert ParseIndex(ws[5]) == Some(f.c) by { ParseIndexShow(f.c); }
    assert ParseIndex(ws[6]) == Some(f.nc) by { ParseIndexShow(f.nc); }
  }

  lemma NoSlash(d: string)
    requires forall i | 0 <= i < |d| :: IsDigit(d[i])
    ensures forall i | 0 <= i < |d| :: d[i] != '/'
  {
  }

  lemma DigitsAreWord(d: string)
    requires |d| > 0 && forall i | 0 <= i < |d| :: IsDigit(d[i])
    ensures IsWord(d)
  {
  }

  // ---------------------------------------------------------------- the file

  function VertexLines(lines: seq<string>): seq<string> { Filter(lines, "v ") }
  function NormalLines(lines: seq<string>): seq<string> { Filter(lines, "vn ") }
  function FaceLines(lines: seq<string>): seq<string> { Filter(lines, "f ") }

  /** Every line of the given kind parses. */
  predicate TriplesParse(ls: seq<string>, parseFloat: string -> Option<real>) {
    forall k | 0 <= k < |ls| :: ParseTriple(ls[k], parseFloat).Some?
  }

  predicate FacesParse(ls: seq<string>) {
    forall k | 0 <= k < |ls| :: ParseFace(ls[k]).Some?
  }

  /** The vertex (or normal) at index `i`: the `i`-th line of its kind, parsed. */
  function TripleAt(ls: seq<string>, parseFloat: string -> Option<real>, i: nat): Vec3
    requires TriplesParse(ls, parseFloat) && i < |ls|
  {
    ParseTriple(ls[i], parseFloat).value
  }

  /** A face whose indices name existing vertices and normals. */
  predicate FaceInRange(f: Face, numVerts: nat, numNorms: nat) {
    f.a < numVerts && f.b < numVerts && f.c < numVerts && f.na < numNorms && f.nb < numNorms && f.nc < numNorms
  }

  /** Whether `Mesh::load` returns a mesh rather than panicking. */
  predicate Loadable(lines: seq<string>, parseFloat: string -> Option<real>) {
    && Parsed(lines, parseFloat)
    && IndicesInRange(lines, parseFloat)
    && |FaceLines(lines)| > 0
  }

  /** Every vertex, normal and face line parses. */
  predicate Parsed(lines: seq<string>, parseFloat: string -> Option<real>) {
    && TriplesParse(VertexLines(lines), parseFloat)
    && TriplesParse(NormalLines(lines), parseFloat)
    && FacesParse(FaceLines(lines))
  }

  /** Every parsed face names an existing vertex and normal. */
  predicate IndicesInRange(lines: seq<string>, parseFloat: string -> Option<real>)
    requires FacesParse(FaceLines(lines))
  {
    var vl, nl, fl := VertexLines(lines), NormalLines(lines), FaceLines(lines);
    forall k | 0 <= k < |fl| :: FaceInRange(ParseFace(fl[k]).value, |vl|, |nl|)
  }

  /** The triangle that face line `k` describes. */
  function FaceTriangle(lines: seq<string>, parseFloat: string -> Option<real>, normalize: Vec3 -> Vec3, k: nat): Meshes.SmoothTriangle
    requires Loadable(lines, parseFloat) && k < |FaceLines(lines)|
  {
    var vl, nl := VertexLines(lines), NormalLines(lines);
    var f := ParseFace(FaceLines(lines)[k]).value;
    Meshes.SmoothTriangle(
      TripleAt(vl, parseFloat, f.a), TripleAt(vl, parseFloat, f.b), TripleAt(vl, parseFloat, f.c),
      normalize(TripleAt(nl, parseFloat, f.na)), normalize(TripleAt(nl, parseFloat, f.nb)), normalize(TripleAt(nl, parseFloat, f.nc)))
  }

  /** Parses every line of one kind as a vertex or normal, applying `post` to each; panics on the first that fails. */
  method ParseTriples(ls: seq<string>, parseFloat: string -> Option<real>, post: Vec3 -> Vec3) returns (r: Option<seq<Vec3>>)
    ensures r.Some? <==> TriplesParse(ls, parseFloat)
    ensures r.Some? ==> |r.value| == |ls| && forall i | 0 <= i < |ls| :: r.value[i] == post(TripleAt(ls, parseFloat, i))
  {
    var out := [];
    for i := 0 to |ls|
      invariant |out| == i
      invariant forall k | 0 <= k < i :: ParseTriple(ls[k], parseFloat).Some? && out[k] == post(ParseTriple(ls[k], parseFloat).value)
    {
      var p := ParseTriple(ls[i], parseFloat);
      if p.None? {
        return None;
      }
      out := out + [post(p.value)];
    }
    return Some(out);
  }

  /** Parses every face line; panics on the first that fails. */
  method ParseFaces(fl: seq<string>) returns (r: Option<seq<Face>>)
    ensures r.Some? <==> FacesParse(fl)
    ensures r.Some? ==> |r.value| == |fl| && forall k | 0 <= k < |fl| :: ParseFace(fl[k]) == Some(r.value[k])
  {
    var faces: seq<Face> := [];
    for i := 0 to |fl|
      invariant |faces| == i
      invariant forall k | 0 <= k < i :: ParseFace(fl[k]) == Some(faces[k])
    {
      var f := ParseFace(fl[i]);
      if f.None? {
        return None;
      }
      FacesSnoc(fl, faces, f.value);
      faces := faces + [f.value];
    }
    return Some(faces);
  }

  /** One more parsed face keeps the faces parsed so far in line with the face lines. */
  lemma FacesSnoc(fl: seq<string>, faces: seq<Face>, f: Face)
    requires |faces| < |fl|
    requires forall k | 0 <= k < |faces| :: ParseFace(fl[k]) == Some(faces[k])
    requires ParseFace(fl[|faces|]) == Some(f)
    ensures forall k | 0 <= k < |faces| + 1 :: ParseFace(fl[k]) == Some((faces + [f])[k])
  {
    forall k | 0 <= k < |faces| + 1
      ensures ParseFace(fl[k]) == Some((faces + [f])[k])
    {
      if k < |faces| {
        assert (faces + [f])[k] == faces[k];
      }
    }
  }

  /** Builds one triangle per face from the vertex and normal lists; panics on the first index out of range. */
  method BuildTriangles(faces: seq<Face>, vs: seq<Vec3>, ns: seq<Vec3>) returns (r: Option<seq<Meshes.SmoothTriangle>>)
    ensures r.Some? <==> forall k | 0 <= k < |faces| :: FaceInRange(faces[k], |vs|, |ns|)
    ensures r.Some? ==> |r.value| == |faces|
    ensures r.Some? ==> forall k | 0 <= k < |faces| ::
      r.value[k] == Meshes.SmoothTriangle(vs[faces[k].a], vs[faces[k].b], vs[faces[k].c], ns[faces[k].na], ns[faces[k].nb], ns[faces[k].nc])
  {
    var tris: seq<Meshes.SmoothTriangle> := [];
    for i := 0 to |faces|
      invariant |tris| == i
      invariant forall k | 0 <= k < i :: FaceInRange(faces[k], |vs|, |ns|)
      invariant forall k | 0 <= k < i :: tris[k] == Meshes.SmoothTriangle(vs[faces[k].a], vs[faces[k].b], vs[faces[k].c], ns[faces[k].na], ns[faces[k].nb], ns[faces[k].nc])
    {
      var f := faces[i];
      if !FaceInRange(f, |vs|, |ns|) {
        return None;
      }
      tris := tris + [Meshes.SmoothTriangle(vs[f.a], vs[f.b], vs[f.c], ns[f.na], ns[f.nb], ns[f.nc])];
    }
    return Some(tris);
  }

  /**
   * `Mesh::load` over the lines of the file: collects the vertices, then the
   * normals (normalised by the given function), then the faces, builds one
   * triangle per face in file order and finally builds the mesh.
   */
  method Load(lines: seq<string>, parseFloat: string -> Option<real>, normalize: Vec3 -> Vec3)
    returns (r: Result<Meshes.Mesh, LoadError>)
    ensures r.Ok? <==> Loadable(lines, parseFloat)
    ensures r == Err(BadVertex) <==> !TriplesParse(VertexLines(lines), parseFloat)
    ensures r == Err(BadNormal) <==> TriplesParse(VertexLines(lines), parseFloat) && !TriplesParse(NormalLines(lines), parseFloat)
    ensures r == Err(BadFace) <==>
      TriplesParse(VertexLines(lines), parseFloat) && TriplesParse(NormalLines(lines), parseFloat) && !FacesParse(FaceLines(lines))
    ensures r == Err(BadIndex) <==> Parsed(lines, parseFloat) && !IndicesInRange(lines, parseFloat)
    ensures r == Err(NoFaces) <==> Parsed(lines, parseFloat) && IndicesInRange(lines, parseFloat) && |FaceLines(lines)| == 0
    ensures r.Ok? ==> |r.value.tris| == |FaceLines(lines)|
    ensures r.Ok? ==> forall k | 0 <= k < |FaceLines(lines)| :: r.value.tris[k] == FaceTriangle(lines, parseFloat, normalize, k)
    ensures r.Ok? ==> r.value.aabb == Meshes.BoundingBox(r.value.tris)
  {
    var vl, nl, fl := VertexLines(lines), NormalLines(lines), FaceLines(lines);
    var verts := ParseTriples(vl, parseFloat, v => v);
    if verts.None? {
      return Err(BadVertex);
    }
    var norms := ParseTriples(nl, parseFloat, normalize);
    if norms.None? {
      return Err(BadNormal);
    }

    var faces := ParseFaces(fl);
    if faces.None? {
      return Err(BadFace);
    }
    var tris := BuildTriangles(faces.value, verts.value, norms.value);
    if tris.None? {
      assert !IndicesInRange(lines, parseFloat) by {
        var k :| 0 <= k < |faces.value| && !FaceInRange(faces.value[k], |verts.value|, |norms.value|);
        assert ParseFace(fl[k]).value == faces.value[k];
      }
      return Err(BadIndex);
    }
    if |tris.value| == 0 {
      return Err(NoFaces);
    }
    LoadedTriangles(lines, parseFloat, normalize, verts.value, norms.value, faces.value, tris.value);
    var mesh := Meshes.New(tris.value);
    return Ok(mesh);
  }

  /** When every stage succeeds the file is loadable, and triangle `k` is the one face line `k` describes. */
  lemma LoadedTriangles(lines: seq<string>, parseFloat: string -> Option<real>, normalize: Vec3 -> Vec3,
                        vs: seq<Vec3>, ns: seq<Vec3>, faces: seq<Face>, tris: seq<Meshes.SmoothTriangle>)
    requires TriplesParse(VertexLines(lines), parseFloat) && TriplesParse(NormalLines(lines), parseFloat)
    requires |vs| == |VertexLines(lines)| && forall i | 0 <= i < |vs| :: vs[i] == TripleAt(VertexLines(lines), parseFloat, i)
    requires |ns| == |NormalLines(lines)| && forall i | 0 <= i < |ns| :: ns[i] == normalize(TripleAt(NormalLines(lines), parseFloat, i))
    requires FacesParse(FaceLines(lines)) && |faces| == |FaceLines(lines)|
    requires forall k | 0 <= k < |faces| :: ParseFace(FaceLines(lines)[k]) == Some(faces[k])
    requires |tris| == |faces| > 0
    requires forall k | 0 <= k < |faces| ::
      && FaceInRange(faces[k], |vs|, |ns|)
      && tris[k] == Meshes.SmoothTriangle(vs[faces[k].a], vs[faces[k].b], vs[faces[k].c], ns[faces[k].na], ns[faces[k].nb], ns[faces[k].nc])
    ensures Loadable(lines, parseFloat)
    ensures forall k | 0 <= k < |FaceLines(lines)| :: tris[k] == FaceTriangle(lines, parseFloat, normalize, k)
  {
    var fl := FaceLines(lines);
    forall k | 0 <= k < |fl|
      ensures FaceInRange(ParseFace(fl[k]).value, |VertexLines(lines)|, |NormalLines(lines)|)
    {
      assert ParseFace(fl[k]).value == faces[k];
    }
    forall k | 0 <= k < |fl|
      ensures tris[k] == FaceTriangle(lines, parseFloat, normalize, k)
    {
      assert ParseFace(fl[k]).value == faces[k];
    }
  }
}
