/**
 The kernel-name filter: a scanner that goes backwards over trailing spaces and bracket
 groups and then takes the characters back to a space, a colon or the beginning.
 */
module KernelNameFilter {
  import opened MachineWords

  datatype Kind = Round | Angle | Square

  function Closer(k: Kind): char {
    match k case Round => ')' case Angle => '>' case Square => ']'
  }

  function Opener(k: Kind): char {
    match k case Round => '(' case Angle => '<' case Square => '['
  }

  predicate IsCloser(c: char) {
    c == ')' || c == '>' || c == ']'
  }

  function KindOf(c: char): Kind
    requires IsCloser(c)
  {
    if c == ')' then Round else if c == '>' then Angle else Square
  }

  predicate IsSeparator(c: char) {
    c == ' ' || c == ':'
  }

  // ------------------------------------------------------------- the scanner

  /** What the scanner is looking for: the end of the base name, or the way out of a
      group, minding only the brackets of its outermost kind. */
  datatype Mode = Outside | Inside(kind: Kind, depth: nat)

  /** From position i backwards, where the first loop stops. */
  function SkipFrom(name: string, i: nat, mode: Mode): (e: nat)
    requires i <= |name| && (mode.Inside? ==> mode.depth > 0)
    ensures e <= i
    decreases i
  {
    if i == 0 then 0
    else
      var c := name[i - 1];
      match mode
      case Outside =>
        if IsCloser(c) then SkipFrom(name, i - 1, Inside(KindOf(c), 1))
        else if c == ' ' then SkipFrom(name, i - 1, Outside)
        else i
      case Inside(k, depth) =>
        var d := if c == Closer(k) then depth + 1 else if c == Opener(k) then depth - 1 else depth;
        SkipFrom(name, i - 1, if d == 0 then Outside else Inside(k, d))
  }

  /** From position i backwards, where the second loop stops. */
  function TakeFrom(name: string, i: nat): (p: nat)
    requires i <= |name|
    ensures p <= i
    ensures forall j :: p <= j < i ==> !IsSeparator(name[j])
    ensures p == 0 || IsSeparator(name[p - 1])
  {
    if i == 0 || IsSeparator(name[i - 1]) then i else TakeFrom(name, i - 1)
  }

  function Filtered(name: string): string {
    var e := SkipFrom(name, |name|, Outside);
    name[TakeFrom(name, e)..e]
  }

  // ------------------------------------------------------ what a name is made of

  /** How a character counts in the nesting of a kind, read backwards. */
  function Weight(k: Kind, c: char): int {
    match k
    case Round => if c == ')' then 1 else if c == '(' then -1 else 0
    case Angle => if c == '>' then 1 else if c == '<' then -1 else 0
    case Square => if c == ']' then 1 else if c == '[' then -1 else 0
  }

  /** Closing minus opening brackets of one kind between two positions. */
  function Depth(k: Kind, s: string, j: nat, b: nat): int
    requires j <= b <= |s|
    decreases b - j
  {
    if j == b then 0 else Weight(k, s[j]) + Depth(k, s, j + 1, b)
  }

  /** The part from a to b is a bracket group, balanced in its own outer kind: it ends in a
      closing bracket of the kind, and from there backwards the depth stays positive until
      the first character brings it to zero. */
  ghost predicate IsGroup(s: string, a: nat, b: nat) {
    a < b <= |s| && exists k :: Weight(k, s[b - 1]) == 1 && Depth(k, s, a, b) == 0 && Rises(k, s, a, b)
  }

  ghost predicate Rises(k: Kind, s: string, a: nat, b: nat)
    requires b <= |s|
  {
    forall j :: a < j < b ==> Depth(k, s, j, b) > 0
  }

  /** The part from a to b consists of spaces and bracket groups. */
  ghost predicate IsTrailer(s: string, a: nat, b: nat)
    requires a <= b <= |s|
    decreases b
  {
    || a == b
    || (s[b - 1] == ' ' && IsTrailer(s, a, b - 1))
    || (exists m :: a <= m < b && IsGroup(s, m, b) && IsTrailer(s, a, m))
  }

  /** A base name from p to e: what comes before it is empty or ends in a separator, it
      has no separator and does not end in a closing bracket, and a trailer follows. */
  ghost predicate IsBase(name: string, p: nat, e: nat) {
    && p < e <= |name|
    && (p == 0 || name[p - 1] == ' ' || name[p - 1] == ':')
    && (forall j :: p <= j < e ==> name[j] != ' ' && name[j] != ':')
    && name[e - 1] != ')' && name[e - 1] != '>' && name[e - 1] != ']'
    && IsTrailer(name, e, |name|)
  }

  // -------------------------------------------------------- trailers are skipped

  /** The brackets the scanner minds are those of the nesting. */
  lemma TokensWeigh(k: Kind, c: char)
    ensures Weight(k, c) == if c == Closer(k) then 1 else if c == Opener(k) then -1 else 0
    ensures Weight(k, c) == 1 <==> IsCloser(c) && k == KindOf(c)
  {
  }

  /** The kind of a group is that of its last character. */
  lemma GroupIff(s: string, a: nat, b: nat)
    requires a < b <= |s|
    ensures IsGroup(s, a, b) <==>
      IsCloser(s[b - 1]) && Depth(KindOf(s[b - 1]), s, a, b) == 0 && Rises(KindOf(s[b - 1]), s, a, b)
  {
    TokensWeigh(Round, s[b - 1]);
    TokensWeigh(Angle, s[b - 1]);
    TokensWeigh(Square, s[b - 1]);
  }

  /** Inside a group the scanner carries the depth of what it has read. */
  lemma {:induction false} SkipIntoGroup(name: string, a: nat, b: nat, j: nat)
    requires a < j < b && IsGroup(name, a, b)
    ensures IsCloser(name[b - 1])
    ensures var k := KindOf(name[b - 1]);
      && Depth(k, name, j, b) > 0
      && SkipFrom(name, b, Outside) == SkipFrom(name, j, Inside(k, Depth(k, name, j, b)))
    decreases b - j
  {
    GroupIff(name, a, b);
    TokensWeigh(KindOf(name[b - 1]), name[j]);
    if j == b - 1 {
      assert Depth(KindOf(name[b - 1]), name, b, b) == 0;
    } else {
      SkipIntoGroup(name, a, b, j + 1);
    }
  }

  lemma SkipGroup(name: string, a: nat, b: nat)
    requires IsGroup(name, a, b)
    ensures SkipFrom(name, b, Outside) == SkipFrom(name, a, Outside)
  {
    GroupIff(name, a, b);
    var k := KindOf(name[b - 1]);
    TokensWeigh(k, name[a]);
    assert Depth(k, name, b, b) == 0;
    SkipIntoGroup(name, a, b, a + 1);
  }

  lemma {:induction false} SkipTrailer(name: string, a: nat, b: nat)
    requires a <= b <= |name| && IsTrailer(name, a, b)
    ensures SkipFrom(name, b, Outside) == SkipFrom(name, a, Outside)
    decreases b
  {
    if a == b {
    } else if name[b - 1] == ' ' && IsTrailer(name, a, b - 1) {
      SkipTrailer(name, a, b - 1);
    } else {
      var m :| a <= m < b && IsGroup(name, m, b) && IsTrailer(name, a, m);
      SkipGroup(name, m, b);
      SkipTrailer(name, a, m);
    }
  }

  // ----------------------------------------------------- what is skipped is a trailer

  /** A scan that is inside a group and does not run off the beginning completes it. */
  lemma {:induction false} GroupCompletes(name: string, j: nat, b: nat, k: Kind) returns (a: nat)
    requires j < b <= |name| && IsCloser(name[b - 1]) && k == KindOf(name[b - 1])
    requires forall t :: j <= t < b ==> Depth(k, name, t, b) > 0
    requires SkipFrom(name, j, Inside(k, Depth(k, name, j, b))) > 0
    ensures a < j && IsGroup(name, a, b)
    ensures SkipFrom(name, j, Inside(k, Depth(k, name, j, b))) == SkipFrom(name, a, Outside)
    decreases j
  {
    TokensWeigh(k, name[j - 1]);
    if Depth(k, name, j - 1, b) == 0 {
      a := j - 1;
      GroupIff(name, a, b);
    } else {
      a := GroupCompletes(name, j - 1, b, k);
    }
  }

  /** Where the first loop stops short of the beginning, it has skipped a trailer and
      stands before neither a space nor a closing bracket. */
  lemma {:induction false} SkippedIsTrailer(name: string, b: nat)
    requires b <= |name| && SkipFrom(name, b, Outside) > 0
    ensures var e := SkipFrom(name, b, Outside);
      IsTrailer(name, e, b) && !IsCloser(name[e - 1]) && name[e - 1] != ' '
    decreases b
  {
    var c := name[b - 1];
    if IsCloser(c) {
      TokensWeigh(KindOf(c), c);
      assert Depth(KindOf(c), name, b, b) == 0;
      var a := GroupCompletes(name, b - 1, b, KindOf(c));
      SkippedIsTrailer(name, a);
    } else if c == ' ' {
      SkippedIsTrailer(name, b - 1);
    }
  }

  // ------------------------------------------------------------------ results

  /** Where there is a base name, the filter returns it. */
  lemma FilterFindsBase(name: string, p: nat, e: nat)
    requires IsBase(name, p, e)
    ensures Filtered(name) == name[p..e]
  {
    SkipTrailer(name, e, |name|);
    assert TakeFrom(name, e) == p;
  }

  /** The filter returns a non-empty r exactly when r is a base name of the input: after
      the beginning or a separator, without separators or a closing bracket at its end,
      and followed by spaces and bracket groups each balanced in its own kind. */
  lemma FilteredIff(name: string, r: string)
    requires r != ""
    ensures Filtered(name) == r <==> exists p: nat, e: nat :: IsBase(name, p, e) && r == name[p..e]
  {
    if Filtered(name) == r {
      var e := SkipFrom(name, |name|, Outside);
      SkippedIsTrailer(name, |name|);
      assert IsBase(name, TakeFrom(name, e), e);
    }
    if p: nat, e: nat :| IsBase(name, p, e) && r == name[p..e] {
      FilterFindsBase(name, p, e);
    }
  }

  ghost predicate IsPiece(name: string, r: string, p: nat, e: nat) {
    p <= e <= |name| && r == name[p..e] && (p == 0 || name[p - 1] == ' ' || name[p - 1] == ':')
  }

  /** On any input the result is a substring without separators that starts the name or
      follows a separator, and filtering it again changes nothing. */
  lemma FilteredAlways(name: string)
    ensures exists p, e :: IsPiece(name, Filtered(name), p, e)
    ensures forall j :: 0 <= j < |Filtered(name)| ==> Filtered(name)[j] != ' ' && Filtered(name)[j] != ':'
    ensures Filtered(Filtered(name)) == Filtered(name)
  {
    var e := SkipFrom(name, |name|, Outside);
    var p := TakeFrom(name, e);
    var r := Filtered(name);
    assert IsPiece(name, r, p, e);
    if r != "" {
      SkippedIsTrailer(name, |name|);
      assert IsBase(r, 0, |r|);
      FilterFindsBase(r, 0, |r|);
    }
  }

  // ------------------------------------------------------------- by grammar

  /** Text inside brackets of a kind: plain characters and nested bracketed text. */
  datatype Text = Done | Plain(c: char, rest: Text) | Nested(inner: Text, rest: Text)

  /** What may follow a base name. */
  datatype Piece = Space | Group(kind: Kind, text: Text)

  /** A text written between the brackets of a kind. */
  function Bracketed(k: Kind, s: string): string {
    match k case Round => "(" + s + ")" case Angle => "<" + s + ">" case Square => "[" + s + "]"
  }

  function Render(k: Kind, t: Text): string {
    match t
    case Done => ""
    case Plain(c, rest) => [c] + Render(k, rest)
    case Nested(inner, rest) => Bracketed(k, Render(k, inner)) + Render(k, rest)
  }

  function RenderPieces(ps: seq<Piece>): string {
    if ps == [] then "" else RenderPieces(ps[..|ps| - 1]) + RenderPiece(ps[|ps| - 1])
  }

  predicate IsPlain(k: Kind, c: char) {
    match k
    case Round => c != '(' && c != ')'
    case Angle => c != '<' && c != '>'
    case Square => c != '[' && c != ']'
  }

  /** Plain characters are not brackets of the kind; other kinds need not match. */
  predicate PlainText(k: Kind, t: Text) {
    match t
    case Done => true
    case Plain(c, rest) => IsPlain(k, c) && PlainText(k, rest)
    case Nested(inner, rest) => PlainText(k, inner) && PlainText(k, rest)
  }

  predicate PlainPieces(ps: seq<Piece>) {
    forall i :: 0 <= i < |ps| && ps[i].Group? ==> PlainText(ps[i].kind, ps[i].text)
  }

  /** Depth in the right part of a concatenation. */
  lemma {:induction false} DepthRight(k: Kind, s: string, t: string, j: nat, b: nat)
    requires j <= b <= |t|
    ensures Depth(k, s + t, |s| + j, |s| + b) == Depth(k, t, j, b)
    decreases b - j
  {
    if j < b {
      DepthRight(k, s, t, j + 1, b);
    }
  }

  /** Depth across the seam of a concatenation. */
  lemma {:induction false} DepthAcross(k: Kind, s: string, t: string, j: nat)
    requires j <= |s|
    ensures Depth(k, s + t, j, |s + t|) == Depth(k, s, j, |s|) + Depth(k, t, 0, |t|)
    decreases |s| - j
  {
    if j == |s| {
      DepthRight(k, s, t, 0, |t|);
    } else {
      DepthAcross(k, s, t, j + 1);
    }
  }

  /** Balanced text: every tail has depth at least zero, and the whole has depth zero. */
  ghost predicate Balanced(k: Kind, s: string) {
    && (forall j :: 0 <= j <= |s| ==> Depth(k, s, j, |s|) >= 0)
    && Depth(k, s, 0, |s|) == 0
  }

  lemma BalancedConcat(k: Kind, s: string, t: string)
    requires Balanced(k, s) && Balanced(k, t)
    ensures Balanced(k, s + t)
  {
    forall j | 0 <= j <= |s + t|
      ensures Depth(k, s + t, j, |s + t|) >= 0
    {
      if j <= |s| {
        DepthAcross(k, s, t, j);
      } else {
        DepthRight(k, s, t, j - |s|, |t|);
      }
    }
    DepthAcross(k, s, t, 0);
  }

  lemma OneCharacter(k: Kind, c: char)
    ensures Depth(k, [c], 0, 1) == Weight(k, c)
  {
    assert Depth(k, [c], 1, 1) == 0;
  }

  lemma BracketedIsGroup(k: Kind, s: string)
    requires Balanced(k, s)
    ensures var g := Bracketed(k, s); IsGroup(g, 0, |g|) && Balanced(k, g)
  {
    var open, close := [Opener(k)], [Closer(k)];
    var g := Bracketed(k, s);
    OneCharacter(k, Opener(k));
    OneCharacter(k, Closer(k));
    assert g == open + (s + close);
    forall j | 0 < j <= |s| + 1
      ensures Depth(k, g, j, |g|) > 0
    {
      DepthRight(k, open, s + close, j - 1, |s + close|);
      DepthAcross(k, s, close, j - 1);
    }
    DepthAcross(k, open, s + close, 0);
    DepthAcross(k, s, close, 0);
  }

  lemma {:induction false} RenderBalanced(k: Kind, t: Text)
    requires PlainText(k, t)
    ensures Balanced(k, Render(k, t))
  {
    match t
    case Done =>
    case Plain(c, rest) =>
      RenderBalanced(k, rest);
      OneCharacter(k, c);
      BalancedConcat(k, [c], Render(k, rest));
    case Nested(inner, rest) =>
      RenderBalanced(k, inner);
      RenderBalanced(k, rest);
      BracketedIsGroup(k, Render(k, inner));
      BalancedConcat(k, Bracketed(k, Render(k, inner)), Render(k, rest));
  }

  lemma {:induction false} DepthOfSlice(k: Kind, name: string, m: nat, b: nat, j: nat)
    requires m <= j <= b <= |name|
    ensures Depth(k, name, j, b) == Depth(k, name[m..b], j - m, b - m)
    decreases b - j
  {
    if j < b {
      DepthOfSlice(k, name, m, b, j + 1);
    }
  }

  /** A group stays a group between any texts. */
  lemma GroupBetween(name: string, m: nat, b: nat)
    requires m < b <= |name| && IsGroup(name[m..b], 0, b - m)
    ensures IsGroup(name, m, b)
  {
    assert name[m..b][b - m - 1] == name[b - 1];
    var k :| Weight(k, name[b - 1]) == 1 && Depth(k, name[m..b], 0, b - m) == 0 && Rises(k, name[m..b], 0, b - m);
    forall j: nat | m <= j <= b
      ensures Depth(k, name, j, b) == Depth(k, name[m..b], j - m, b - m)
    {
      DepthOfSlice(k, name, m, b, j);
    }
    assert Depth(k, name, m, b) == 0;
    forall j | m < j < b
      ensures Depth(k, name, j, b) > 0
    {
      assert Depth(k, name[m..b], j - m, b - m) > 0;
    }
    assert Rises(k, name, m, b);
  }

  function RenderPiece(p: Piece): (s: string)
    ensures s != ""
  {
    match p
    case Space => " "
    case Group(k, text) => Bracketed(k, Render(k, text))
  }

  lemma PieceExtends(name: string, a: nat, m: nat, b: nat, p: Piece)
    requires a <= m < b <= |name| && IsTrailer(name, a, m) && name[m..b] == RenderPiece(p)
    requires p.Group? ==> PlainText(p.kind, p.text)
    ensures IsTrailer(name, a, b)
  {
    if p.Group? {
      RenderBalanced(p.kind, p.text);
      BracketedIsGroup(p.kind, Render(p.kind, p.text));
      GroupBetween(name, m, b);
    } else {
      assert name[m] == name[m..b][0] == ' ' && b == m + 1;
    }
  }

  /** Rendered pieces are a trailer wherever they stand. */
  lemma {:induction false} PiecesAreTrailer(name: string, a: nat, b: nat, ps: seq<Piece>)
    requires a <= b <= |name| && name[a..b] == RenderPieces(ps) && PlainPieces(ps)
    ensures IsTrailer(name, a, b)
  {
    if ps != [] {
      var n := |ps| - 1;
      var m := a + |RenderPieces(ps[..n])|;
      assert name[a..m] == name[a..b][..m - a] == RenderPieces(ps[..n]);
      assert name[m..b] == name[a..b][m - a..] == RenderPiece(ps[n]);
      PiecesAreTrailer(name, a, m, ps[..n]);
      PieceExtends(name, a, m, b, ps[n]);
    }
  }

  /** Any prefix that is empty or ends in a space or colon, any base name, and any spaces and
      bracket groups of any nesting after it: the filter returns the base name. */
  lemma FilterOfPieces(prefix: string, base: string, ps: seq<Piece>)
    requires prefix == "" || prefix[|prefix| - 1] == ' ' || prefix[|prefix| - 1] == ':'
    requires base != "" && forall j :: 0 <= j < |base| ==> base[j] != ' ' && base[j] != ':'
    requires var last := base[|base| - 1]; last != ')' && last != '>' && last != ']'
    requires PlainPieces(ps)
    ensures Filtered(prefix + base + RenderPieces(ps)) == base
  {
    var rest := RenderPieces(ps);
    var name := prefix + base + rest;
    var p, e := |prefix|, |prefix + base|;
    Placed(prefix, base, rest);
    PiecesAreTrailer(name, e, |name|, ps);
    assert IsBase(name, p, e);
    FilterFindsBase(name, p, e);
  }

  /** Where the parts of a concatenation are found again. */
  lemma Placed(s: string, t: string, u: string)
    ensures var w := s + t + u;
      && w[|s|..|s + t|] == t && w[|s + t|..|w|] == u
      && (s != "" ==> w[|s| - 1] == s[|s| - 1])
      && (t != "" ==> w[|s + t| - 1] == t[|t| - 1])
      && (forall j :: |s| <= j < |s + t| ==> w[j] == t[j - |s|])
  {
  }

  // ----------------------------------------------------------------- the code

  lemma WrapSmall(x: int)
    requires 0 <= x < TWO_32
    ensures Wrap32(x) == x
  {
  }

  /** The first loop, with its 32-bit counter and the two tokens it minds. */
  method SkipTail(name: string) returns (rit: nat)
    ensures rit <= |name|
    ensures |name| < TWO_32 ==> rit == SkipFrom(name, |name|, Outside)
  {
    rit := |name|;
    var counter: uint32, openToken, closeToken := 0, ' ', ' ';
    ghost var mode := Outside;
    while rit != 0
      invariant 0 <= rit <= |name|
      invariant mode.Inside? ==> mode.depth > 0 && openToken == Closer(mode.kind) && closeToken == Opener(mode.kind)
      invariant |name| < TWO_32 ==> counter <= |name| - rit && counter == (if mode.Inside? then mode.depth else 0)
      invariant |name| < TWO_32 ==> SkipFrom(name, rit, mode) == SkipFrom(name, |name|, Outside)
    {
      var c := name[rit - 1];
      if counter == 0 {
        if c == ')' {
          counter, openToken, closeToken, mode := 1, ')', '(', Inside(Round, 1);
        } else if c == '>' {
          counter, openToken, closeToken, mode := 1, '>', '<', Inside(Angle, 1);
        } else if c == ']' {
          counter, openToken, closeToken, mode := 1, ']', '[', Inside(Square, 1);
        } else if c == ' ' {
          mode := Outside;
        } else {
          return;
        }
      } else {
        ghost var d := if c == openToken then counter + 1 else if c == closeToken then counter - 1 else counter;
        if |name| < TWO_32 {
          WrapSmall(d);
        }
        if c == openToken {
          counter := Wrap32(counter + 1);
        } else if c == closeToken {
          counter := Wrap32(counter - 1);
        }
        mode := if counter == 0 || mode.Outside? then Outside else Inside(mode.kind, counter);
      }
      rit := rit - 1;
    }
  }

  /** The function of the source, with its 32-bit position and length. */
  method FilterKernelName(name: string) returns (r: string)
    ensures |name| < TWO_32 ==> r == Filtered(name)
    ensures exists p: nat, e: nat :: p <= e <= |name| && r == name[p..e]
  {
    var rit := SkipTail(name);
    var rbeg := rit;
    while rit != 0 && name[rit - 1] != ' ' && name[rit - 1] != ':'
      invariant 0 <= rit <= rbeg <= |name|
      invariant TakeFrom(name, rit) == TakeFrom(name, rbeg)
    {
      rit := rit - 1;
    }
    var pos, length := Wrap32(rit), Wrap32(rbeg - rit);
    if |name| < TWO_32 {
      WrapSmall(rit);
      WrapSmall(rbeg - rit);
    }
    assert pos <= rit && length <= rbeg - rit;
    r := name[pos..if pos + length <= |name| then pos + length else |name|];
  }
}
