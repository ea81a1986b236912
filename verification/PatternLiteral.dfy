/**
 Pattern.globEscape and Pattern.getLiteral on POSIX: escaping a path so that a glob pattern means
 just that path, and reading a pattern segment back as a literal.
 */
module PatternLiteral {
  import opened Basics

  // ---------- Escaping ----------

  /** String.prototype.replace of every occurrence of one character. */
  function ReplaceEach(s: string, c: char, replacement: string): string {
    if s == "" then "" else (if s[0] == c then replacement else [s[0]]) + ReplaceEach(s[1..], c, replacement)
  }

  /** After a '[': at least one character other than '/' and then a ']'. */
  ghost predicate ClosesLater(rest: string) {
    exists j :: 0 < j < |rest| && rest[j] == ']' && '/' !in rest[..j]
  }

  /** Replaces every '[' that a ']' follows within the path segment. */
  ghost function EscapeBrackets(s: string): string {
    if s == "" then ""
    else (if s[0] == '[' && ClosesLater(s[1..]) then "[[]" else [s[0]]) + EscapeBrackets(s[1..])
  }

  ghost function GlobEscape(s: string): string {
    ReplaceEach(ReplaceEach(EscapeBrackets(ReplaceEach(s, '\\', "\\\\")), '?', "[?]"), '*', "[*]")
  }

  /** What becomes of one character in front of the rest of the path. */
  ghost function EscapedChar(c: char, rest: string): string {
    if c == '\\' then "\\\\"
    else if c == '[' then if ClosesLater(rest) then "[[]" else "["
    else if c == '?' then "[?]"
    else if c == '*' then "[*]"
    else [c]
  }

  ghost function OnePass(s: string): string {
    if s == "" then "" else EscapedChar(s[0], s[1..]) + OnePass(s[1..])
  }

  lemma {:induction false} ReplaceAppend(a: string, b: string, c: char, replacement: string)
    ensures ReplaceEach(a + b, c, replacement) == ReplaceEach(a, c, replacement) + ReplaceEach(b, c, replacement)
  {
    if a == "" {
      assert a + b == b;
    } else {
      assert (a + b)[1..] == a[1..] + b;
      ReplaceAppend(a[1..], b, c, replacement);
    }
  }

  lemma {:induction false} ReplaceAbsent(s: string, c: char, replacement: string)
    requires c !in s
    ensures ReplaceEach(s, c, replacement) == s
  {
    if s != "" {
      ReplaceAbsent(s[1..], c, replacement);
      assert [s[0]] + s[1..] == s;
    }
  }

  ghost predicate ClosesAtOnceOrLater(rest: string) {
    exists j :: 0 <= j < |rest| && rest[j] == ']' && '/' !in rest[..j]
  }

  lemma ClosesStep(rest: string)
    requires rest != ""
    ensures ClosesAtOnceOrLater(rest) <==> rest[0] == ']' || (rest[0] != '/' && ClosesAtOnceOrLater(rest[1..]))
    ensures ClosesLater(rest) <==> rest[0] != '/' && ClosesAtOnceOrLater(rest[1..])
  {
  }

  /** Doubling backslashes changes nothing about which brackets close. */
  lemma {:induction false} DoublingKeepsCloses(rest: string)
    ensures ClosesAtOnceOrLater(ReplaceEach(rest, '\\', "\\\\")) <==> ClosesAtOnceOrLater(rest)
    ensures ClosesLater(ReplaceEach(rest, '\\', "\\\\")) <==> ClosesLater(rest)
  {
    if rest != "" {
      var tail := ReplaceEach(rest[1..], '\\', "\\\\");
      DoublingKeepsCloses(rest[1..]);
      ClosesStep(rest);
      ClosesStep(ReplaceEach(rest, '\\', "\\\\"));
      if rest[0] == '\\' {
        assert ("\\\\" + tail)[1..] == "\\" + tail;
        ClosesStep("\\" + tail);
        assert ("\\" + tail)[1..] == tail;
      } else {
        assert ([rest[0]] + tail)[1..] == tail;
      }
    }
  }

  /** The four replacements together replace each character by itself or its escape. */
  lemma {:induction false} EscapeIsOnePass(s: string)
    ensures GlobEscape(s) == OnePass(s)
  {
    if s != "" {
      var rest := s[1..];
      EscapeIsOnePass(rest);
      var doubled := ReplaceEach(rest, '\\', "\\\\");
      DoublingKeepsCloses(rest);
      EscapeFirst(s[0], rest, doubled);
      var head, tail := FirstBracketed(s[0], rest), EscapeBrackets(doubled);
      ReplaceAppend(head, tail, '?', "[?]");
      ReplaceAppend(ReplaceEach(head, '?', "[?]"), ReplaceEach(tail, '?', "[?]"), '*', "[*]");
      ReplaceFirst(s[0], rest);
    }
  }

  /** The first character after the backslash and bracket replacements. */
  ghost function FirstBracketed(c: char, rest: string): string {
    if c == '\\' then "\\\\" else if c == '[' && ClosesLater(rest) then "[[]" else [c]
  }

  lemma EscapeFirst(c: char, rest: string, doubled: string)
    requires doubled == ReplaceEach(rest, '\\', "\\\\") && (ClosesLater(doubled) <==> ClosesLater(rest))
    ensures EscapeBrackets(ReplaceEach([c] + rest, '\\', "\\\\")) == FirstBracketed(c, rest) + EscapeBrackets(doubled)
  {
  }

  lemma ReplaceFirst(c: char, rest: string)
    ensures ReplaceEach(ReplaceEach(FirstBracketed(c, rest), '?', "[?]"), '*', "[*]") == EscapedChar(c, rest)
  {
    hide ClosesLater, ReplaceEach;
    var head := FirstBracketed(c, rest);
    if c == '?' {
      ReplaceOne('?', "[?]");
      ReplaceAbsent("[?]", '*', "[*]");
    } else if c == '*' {
      ReplaceAbsent(head, '?', "[?]");
      ReplaceOne('*', "[*]");
    } else {
      ReplaceAbsent(head, '?', "[?]");
      ReplaceAbsent(head, '*', "[*]");
    }
  }

  lemma ReplaceOne(c: char, replacement: string)
    ensures ReplaceEach([c], c, replacement) == replacement
  {
  }

  /** A path is escaped segment by segment. */
  lemma {:induction false} EscapeJoin(a: string, b: string)
    ensures GlobEscape(a + "/" + b) == GlobEscape(a) + "/" + GlobEscape(b)
  {
    EscapeIsOnePass(a + "/" + b);
    EscapeIsOnePass(a);
    EscapeIsOnePass(b);
    OnePassJoin(a, b);
  }

  lemma {:induction false} OnePassJoin(a: string, b: string)
    ensures OnePass(a + "/" + b) == OnePass(a) + "/" + OnePass(b)
  {
    if a == "" {
      SlashFirst(b);
    } else {
      hide ClosesLater, EscapedChar;
      OnePassJoin(a[1..], b);
      var s, rest := a + "/" + b, OnePass(a[1..]);
      assert s[0] == a[0] && s[1..] == a[1..] + "/" + b;
      EscapedBeforeSlash(a[0], a[1..], b);
      var head := EscapedChar(a[0], a[1..]);
      ConcatThree(head, rest, OnePass(b));
    }
  }

  lemma SlashFirst(b: string)
    ensures OnePass("" + "/" + b) == OnePass("") + "/" + OnePass(b)
  {
    assert "" + "/" + b == "/" + b;
    assert ("/" + b)[1..] == b;
  }

  lemma ConcatThree(a: string, b: string, c: string)
    ensures a + (b + "/" + c) == (a + b) + "/" + c
  {
  }

  lemma EscapedBeforeSlash(c: char, a: string, b: string)
    ensures EscapedChar(c, a + "/" + b) == EscapedChar(c, a)
  {
    hide ClosesLater;
    SlashEndsSegment(a, b);
  }

  lemma SlashEndsSegment(a: string, b: string)
    ensures ClosesLater(a + "/" + b) <==> ClosesLater(a)
  {
    var s := a + "/" + b;
    forall j | |a| < j <= |s|
      ensures '/' in s[..j]
    {
      assert s[..j][|a|] == '/';
    }
    forall j | 0 <= j <= |a|
      ensures s[..j] == a[..j]
    {
    }
  }

  /** What escaping makes of the first character of a path; the rest is escaped independently. */
  lemma EscapeStep(c: char, rest: string)
    ensures c == '\\' ==> GlobEscape([c] + rest) == "\\\\" + GlobEscape(rest)
    ensures c == '?' || c == '*' ==> GlobEscape([c] + rest) == "[" + [c] + "]" + GlobEscape(rest)
    ensures c == '[' && (exists j :: 0 < j < |rest| && rest[j] == ']' && '/' !in rest[..j]) ==>
              GlobEscape([c] + rest) == "[[]" + GlobEscape(rest)
    ensures c == '[' && !(exists j :: 0 < j < |rest| && rest[j] == ']' && '/' !in rest[..j]) ==>
              GlobEscape([c] + rest) == "[" + GlobEscape(rest)
    ensures c !in "\\?*[" ==> GlobEscape([c] + rest) == [c] + GlobEscape(rest)
  {
    hide GlobEscape;
    EscapeIsOnePass([c] + rest);
    EscapeIsOnePass(rest);
    assert ([c] + rest)[1..] == rest;
  }

  // ---------- Reading a literal ----------

  /** A character set from after its '[': the characters collected and where its ']' is. */
  function ScanSet(u: string): (r: Option<(string, nat)>)
    ensures r.Some? ==> r.value.1 < |u|
  {
    if u == "" then
      None
    else if u[0] == '\\' && |u| > 1 then
      match ScanSet(u[2..])
      case None => None
      case Some((collected, closed)) => Some(([u[1]] + collected, closed + 2))
    else if u[0] == ']' then
      Some(("", 0))
    else
      match ScanSet(u[1..])
      case None => None
      case Some((collected, closed)) => Some(([u[0]] + collected, closed + 1))
  }

  function Prepend(c: char, r: Option<string>): Option<string> {
    match r
    case None => None
    case Some(literal) => Some([c] + literal)
  }

  /** The literal a segment stands for; None when it holds a wildcard or a real character set. */
  function Literal(t: string): (r: Option<string>)
    decreases |t|
  {
    if t == "" then
      Some("")
    else if t[0] == '\\' && |t| > 1 then
      Prepend(t[1], Literal(t[2..]))
    else if t[0] == '*' || t[0] == '?' then
      None
    else if t[0] == '[' && |t| > 1 && ScanSet(t[1..]).Some? && |ScanSet(t[1..]).value.0| > 1 then
      None
    else if t[0] == '[' && |t| > 1 && ScanSet(t[1..]).Some? && |ScanSet(t[1..]).value.0| == 1 then
      var (collected, closed) := ScanSet(t[1..]).value;
      Prepend(collected[0], Literal(t[closed + 2..]))
    else
      Prepend(t[0], Literal(t[1..]))
  }

  function OrEmpty(r: Option<string>): string {
    match r
    case None => ""
    case Some(literal) => literal
  }

  /** The text read so far in front of what the rest of the segment gives. */
  function Before(literal: string, r: Option<string>): Option<string> {
    match r
    case None => None
    case Some(rest) => Some(literal + rest)
  }

  lemma BeforePrepend(literal: string, c: char, r: Option<string>)
    ensures Before(literal, Prepend(c, r)) == Before(literal + [c], r)
  {
    if r.Some? {
      assert literal + ([c] + r.value) == (literal + [c]) + r.value;
    }
  }

  lemma BeforeEnds(literal: string)
    ensures Before(literal, Literal("")) == Some(literal)
  {
    assert literal + "" == literal;
  }

  lemma BeforeNothing(r: Option<string>)
    ensures Before("", r) == r
  {
    if r.Some? {
      assert "" + r.value == r.value;
    }
  }

  // ---------- What a segment is made of ----------

  /** A character inside a set, as such or behind a backslash. */
  datatype Member = Bare(c: char) | Quoted(c: char)

  /** What a segment is made of: a character as such, one behind a backslash, and a set of one. */
  datatype Piece = Plain(c: char) | Escaped(c: char) | OneOf(member: Member)

  function MemberText(x: Member): string {
    match x
    case Bare(c) => [c]
    case Quoted(c) => ['\\', c]
  }

  function MembersText(xs: seq<Member>): string {
    if xs == [] then "" else MemberText(xs[0]) + MembersText(xs[1..])
  }

  /** The characters a set contains. */
  function MembersRead(xs: seq<Member>): (r: string)
    ensures |r| == |xs| && forall i :: 0 <= i < |xs| ==> r[i] == xs[i].c
  {
    seq(|xs|, i requires 0 <= i < |xs| => xs[i].c)
  }

  predicate IsMember(x: Member) {
    x.Bare? ==> x.c != ']' && x.c != '\\'
  }

  /** A text that starts with these members and a closing bracket. */
  predicate ClosesAfter(u: string, xs: seq<Member>) {
    (forall x :: x in xs ==> IsMember(x)) && MembersText(xs) + "]" <= u
  }

  function PieceText(p: Piece): string {
    match p
    case Plain(c) => [c]
    case Escaped(c) => ['\\', c]
    case OneOf(x) => "[" + MemberText(x) + "]"
  }

  function PieceRead(p: Piece): char {
    match p
    case Plain(c) => c
    case Escaped(c) => c
    case OneOf(x) => x.c
  }

  /** A character stands for itself unless it is a wildcard, a backslash in front of another
      character, or an opening bracket whose set closes and is not empty. */
  ghost predicate IsPiece(p: Piece, rest: string) {
    match p
    case Plain(c) =>
      && c != '*' && c != '?'
      && (c == '\\' ==> rest == "")
      && (c == '[' ==> forall xs :: ClosesAfter(rest, xs) ==> xs == [])
    case Escaped(c) => true
    case OneOf(x) => IsMember(x)
  }

  function PiecesText(ps: seq<Piece>): string {
    if ps == [] then "" else PieceText(ps[0]) + PiecesText(ps[1..])
  }

  function PiecesRead(ps: seq<Piece>): (r: string)
    ensures |r| == |ps| && forall i :: 0 <= i < |ps| ==> r[i] == PieceRead(ps[i])
  {
    seq(|ps|, i requires 0 <= i < |ps| => PieceRead(ps[i]))
  }

  /** These pieces can stand in front of the rest of a segment. */
  ghost predicate ArePieces(ps: seq<Piece>, rest: string) {
    ps == [] || (IsPiece(ps[0], PiecesText(ps[1..]) + rest) && ArePieces(ps[1..], rest))
  }

  /** A wildcard, or a set of more than one. */
  ghost predicate StartsGlob(rest: string) {
    && rest != ""
    && (|| rest[0] == '*' || rest[0] == '?'
        || (rest[0] == '[' && exists xs :: |xs| > 1 && ClosesAfter(rest[1..], xs)))
  }

  ghost predicate IsLiteral(segment: string, literal: string) {
    exists ps :: ArePieces(ps, "") && PiecesText(ps) == segment && PiecesRead(ps) == literal
  }

  ghost predicate IsGlob(segment: string) {
    exists ps, rest :: HasGlobBehind(segment, ps, rest)
  }

  ghost predicate HasGlobBehind(segment: string, ps: seq<Piece>, rest: string) {
    segment == PiecesText(ps) + rest && ArePieces(ps, rest) && StartsGlob(rest)
  }

  lemma {:induction false} MembersAreScanned(xs: seq<Member>, more: string)
    requires forall x :: x in xs ==> IsMember(x)
    ensures ScanSet(MembersText(xs) + "]" + more) == Some((MembersRead(xs), |MembersText(xs)|))
  {
    var u := MembersText(xs) + "]" + more;
    if xs == [] {
      assert u[0] == ']';
    } else {
      var rest := MembersText(xs[1..]) + "]" + more;
      var width := |MemberText(xs[0])|;
      assert IsMember(xs[0]);
      MembersAreScanned(xs[1..], more);
      assert u == MemberText(xs[0]) + rest && u[width..] == rest;
      assert MembersRead(xs) == [xs[0].c] + MembersRead(xs[1..]);
      ScanUnfolds(u);
    }
  }

  lemma ClosedIsScanned(u: string, xs: seq<Member>)
    requires ClosesAfter(u, xs)
    ensures ScanSet(u) == Some((MembersRead(xs), |MembersText(xs)|))
  {
    hide ScanSet;
    var closed := MembersText(xs) + "]";
    assert u == closed + u[|closed|..];
    MembersAreScanned(xs, u[|closed|..]);
  }

  lemma {:induction false} ScannedCloses(u: string) returns (xs: seq<Member>)
    requires ScanSet(u).Some?
    ensures ClosesAfter(u, xs)
    ensures ScanSet(u).value == (MembersRead(xs), |MembersText(xs)|)
  {
    ScanUnfolds(u);
    if u[0] == '\\' && |u| > 1 {
      var rest := ScannedCloses(u[2..]);
      xs := [Quoted(u[1])] + rest;
      assert MembersText(xs) == u[..2] + MembersText(rest);
      ClosedIsScanned(u, xs);
    } else if u[0] == ']' {
      xs := [];
    } else {
      var rest := ScannedCloses(u[1..]);
      xs := [Bare(u[0])] + rest;
      assert MembersText(xs) == u[..1] + MembersText(rest);
      ClosedIsScanned(u, xs);
    }
  }

  /** One piece is read as its character. */
  lemma PieceIsRead(p: Piece, rest: string)
    requires IsPiece(p, rest)
    ensures Literal(PieceText(p) + rest) == Prepend(PieceRead(p), Literal(rest))
  {
    hide ScanSet, Prepend;
    var t := PieceText(p) + rest;
    match p
    case Plain(c) =>
      assert t[1..] == rest;
      if c == '[' && ScanSet(rest).Some? {
        var xs := ScannedCloses(rest);
      }
    case Escaped(c) =>
      assert t[2..] == rest;
    case OneOf(x) =>
      assert MembersText([x]) == MemberText(x) + "";
      assert t[1..] == MembersText([x]) + "]" + rest;
      MembersAreScanned([x], rest);
      assert t[|MemberText(x)| + 2..] == rest;
  }

  lemma {:induction false} PiecesAreRead(ps: seq<Piece>, rest: string)
    requires ArePieces(ps, rest)
    ensures Literal(PiecesText(ps) + rest) == Before(PiecesRead(ps), Literal(rest))
  {
    hide Literal, Before, Prepend;
    if ps == [] {
      assert "" + rest == rest;
      BeforeNothing(Literal(rest));
    } else {
      var tail := PiecesText(ps[1..]) + rest;
      PiecesAreRead(ps[1..], rest);
      assert PiecesText(ps) + rest == PieceText(ps[0]) + tail;
      PieceIsRead(ps[0], tail);
      BeforeLonger(PieceRead(ps[0]), PiecesRead(ps[1..]), Literal(rest));
      assert PiecesRead(ps) == [PieceRead(ps[0])] + PiecesRead(ps[1..]);
    }
  }

  lemma BeforeLonger(c: char, literal: string, r: Option<string>)
    ensures Prepend(c, Before(literal, r)) == Before([c] + literal, r)
  {
    if r.Some? {
      assert [c] + (literal + r.value) == ([c] + literal) + r.value;
    }
  }

  lemma GlobIsNotRead(rest: string)
    requires StartsGlob(rest)
    ensures Literal(rest).None?
  {
    hide ScanSet;
    if rest[0] == '[' {
      var xs :| |xs| > 1 && ClosesAfter(rest[1..], xs);
      ClosedIsScanned(rest[1..], xs);
    }
  }

  /** The first piece of a segment, unless a wildcard or a set stands there. */
  lemma FirstPiece(t: string) returns (p: Piece)
    requires t != "" && !StartsGlob(t)
    ensures |PieceText(p)| <= |t| && t == PieceText(p) + t[|PieceText(p)|..] && PieceText(p) != ""
    ensures IsPiece(p, t[|PieceText(p)|..])
  {
    hide ScanSet;
    p := Plain(t[0]);
    if t[0] == '\\' && |t| > 1 {
      p := Escaped(t[1]);
    } else if t[0] == '[' && ScanSet(t[1..]).Some? {
      var xs := ScannedCloses(t[1..]);
      if xs == [] {
        OnlyEmpty(t[1..]);
      } else {
        p := OneOf(xs[0]);
        assert |xs| == 1;
        assert MembersText(xs) == MemberText(xs[0]) + "";
      }
    } else if t[0] == '[' {
      NothingCloses(t[1..]);
    }
  }

  lemma OnlyEmpty(u: string)
    requires ClosesAfter(u, [])
    ensures forall xs :: ClosesAfter(u, xs) ==> xs == []
  {
    hide ScanSet;
    ClosedIsScanned(u, []);
    forall xs | ClosesAfter(u, xs)
      ensures xs == []
    {
      ClosedIsScanned(u, xs);
    }
  }

  lemma NothingCloses(u: string)
    requires ScanSet(u).None?
    ensures forall xs :: !ClosesAfter(u, xs)
  {
    hide ScanSet;
    forall xs | ClosesAfter(u, xs)
      ensures false
    {
      ClosedIsScanned(u, xs);
    }
  }

  /** Every segment is pieces up to its end or up to a wildcard or set. */
  lemma {:induction false} PiecesOf(t: string) returns (ps: seq<Piece>, rest: string)
    ensures t == PiecesText(ps) + rest && ArePieces(ps, rest)
    ensures rest == "" || StartsGlob(rest)
    decreases |t|
  {
    if t == "" || StartsGlob(t) {
      ps, rest := [], t;
    } else {
      var p := FirstPiece(t);
      var more := t[|PieceText(p)|..];
      ps, rest := PiecesOf(more);
      assert PiecesText([p] + ps) + rest == PieceText(p) + (PiecesText(ps) + rest);
      ps := [p] + ps;
    }
  }

  /** What is read from a segment made of pieces is their characters, and nothing is read from one
      with a wildcard or a set behind its pieces; every segment is of exactly one of the two kinds. */
  lemma LiteralIsRead(segment: string)
    ensures IsGlob(segment) <==> Literal(segment).None?
    ensures forall literal :: IsLiteral(segment, literal) <==> Literal(segment) == Some(literal)
  {
    hide Literal, Before, StartsGlob, ArePieces;
    forall ps, rest | HasGlobBehind(segment, ps, rest)
      ensures Literal(segment).None?
    {
      PiecesAreRead(ps, rest);
      GlobIsNotRead(rest);
      BeforeNone(PiecesRead(ps));
    }
    forall ps | ArePieces(ps, "") && PiecesText(ps) == segment
      ensures Literal(segment) == Some(PiecesRead(ps))
    {
      PiecesAreRead(ps, "");
      assert PiecesText(ps) + "" == segment;
      BeforeEnds(PiecesRead(ps));
    }
    var ps, rest := PiecesOf(segment);
    if rest == "" {
      assert PiecesText(ps) + "" == PiecesText(ps);
    } else {
      assert HasGlobBehind(segment, ps, rest);
    }
  }

  /** The empty string stands for "not a literal". */
  method GetLiteral(segment: string) returns (literal: string)
    ensures if IsGlob(segment) then literal == "" else IsLiteral(segment, literal)
    ensures literal == OrEmpty(Literal(segment))
  {
    hide Before, IsGlob, IsLiteral;
    LiteralIsRead(segment);
    literal := "";
    var i := 0;
    BeforeNothing(Literal(segment));
    assert segment[0..] == segment;
    while i < |segment|
      invariant 0 <= i <= |segment|
      invariant Literal(segment) == Before(literal, Literal(segment[i..]))
    {
      var taken, next, wild := NextLiteral(segment, i);
      if wild {
        BeforeNone(literal);
        return "";
      }
      BeforePrepend(literal, taken, Literal(segment[next..]));
      literal := literal + [taken];
      i := next;
    }
    assert segment[i..] == "";
    BeforeEnds(literal);
  }

  lemma BeforeNone(literal: string)
    ensures Before(literal, None) == None
  {
  }

  /** One turn of the loop: the character appended and where to go on, or that there is no literal. */
  method NextLiteral(segment: string, i: nat) returns (taken: char, next: nat, wild: bool)
    requires i < |segment|
    ensures wild ==> Literal(segment[i..]).None?
    ensures !wild ==> i < next <= |segment| && Literal(segment[i..]) == Prepend(taken, Literal(segment[next..]))
  {
    hide Prepend, ScanSet;
    ghost var t := segment[i..];
    var c := segment[i];
    assert t[1..] == segment[i + 1..];
    taken, next, wild := c, i + 1, false;
    if c == '\\' && i + 1 < |segment| {
      assert t[2..] == segment[i + 2..];
      taken, next := segment[i + 1], i + 2;
    } else if c == '*' || c == '?' {
      wild := true;
    } else if c == '[' && i + 1 < |segment| {
      var collected, closed := CollectSet(segment, i + 1);
      if closed >= 0 {
        assert t[closed - i + 1..] == segment[closed + 1..];
        if |collected| > 1 {
          wild := true;
        } else if collected != "" {
          taken, next := collected[0], closed + 1;
        }
      }
    }
  }

  /** The inner loop: collects a character set, closed is -1 when it is never closed. */
  method CollectSet(segment: string, start: nat) returns (collected: string, closed: int)
    requires start <= |segment|
    ensures match ScanSet(segment[start..])
            case None => closed == -1
            case Some((all, at)) => closed == start + at && collected == all
  {
    hide FromHere, ScanSet;
    collected, closed := "", -1;
    var i2 := start;
    SetFromHere(ScanSet(segment[start..]));
    while i2 < |segment|
      invariant start <= i2 <= |segment|
      invariant ScanSet(segment[start..]) == FromHere(collected, i2 - start, ScanSet(segment[i2..]))
    {
      var c2 := segment[i2];
      ghost var u := segment[i2..];
      ScanUnfolds(u);
      assert u[1..] == segment[i2 + 1..];
      if c2 == '\\' && i2 + 1 < |segment| {
        assert u[2..] == segment[i2 + 2..];
        SetGrows(collected, i2 - start, segment[i2 + 1], 2, ScanSet(segment[i2 + 2..]));
        i2 := i2 + 1;
        collected := collected + [segment[i2]];
      } else if c2 == ']' {
        closed := i2;
        SetCloses(collected, i2 - start);
        return;
      } else {
        SetGrows(collected, i2 - start, c2, 1, ScanSet(segment[i2 + 1..]));
        collected := collected + [c2];
      }
      i2 := i2 + 1;
    }
    assert segment[i2..] == "";
    ScanEnds(collected, i2 - start);
  }

  lemma ScanEnds(collected: string, at: nat)
    ensures FromHere(collected, at, ScanSet("")) == None
  {
  }

  lemma ScanUnfolds(u: string)
    requires u != ""
    ensures ScanSet(u)
            == if u[0] == '\\' && |u| > 1 then FromHere([u[1]], 2, ScanSet(u[2..]))
               else if u[0] == ']' then Some(("", 0))
               else FromHere([u[0]], 1, ScanSet(u[1..]))
  {
  }

  /** What a scan gives with characters already collected before it. */
  function FromHere(collected: string, at: nat, r: Option<(string, nat)>): Option<(string, nat)> {
    match r
    case None => None
    case Some((rest, closed)) => Some((collected + rest, at + closed))
  }

  lemma SetFromHere(r: Option<(string, nat)>)
    ensures FromHere("", 0, r) == r
  {
    if r.Some? {
      assert "" + r.value.0 == r.value.0;
    }
  }

  lemma SetCloses(collected: string, at: nat)
    ensures FromHere(collected, at, Some(("", 0))) == Some((collected, at))
  {
    assert collected + "" == collected;
  }

  lemma SetGrows(collected: string, at: nat, c: char, width: nat, r: Option<(string, nat)>)
    ensures FromHere(collected, at, FromHere([c], width, r)) == FromHere(collected + [c], at + width, r)
  {
    if r.Some? {
      assert collected + ([c] + r.value.0) == (collected + [c]) + r.value.0;
    }
  }

  // ---------- Escaping and reading back ----------

  predicate IsWild(c: char) {
    c == '?' || c == '*'
  }

  ghost predicate HasWild(s: string) {
    exists k :: 0 <= k < |s| && IsWild(s[k])
  }

  /** A '[' with no ']' anywhere behind it but with a '?' or '*' behind it. */
  ghost predicate OpenBracketBeforeWild(s: string) {
    exists i :: 0 <= i < |s| && s[i] == '[' && ']' !in s[i + 1..] && HasWild(s[i + 1..])
  }

  lemma OpenBracketStep(s: string)
    requires s != ""
    ensures OpenBracketBeforeWild(s)
            <==> (s[0] == '[' && ']' !in s[1..] && HasWild(s[1..])) || OpenBracketBeforeWild(s[1..])
  {
  }

  lemma HasWildStep(rest: string)
    requires rest != ""
    ensures HasWild(rest) <==> IsWild(rest[0]) || HasWild(rest[1..])
  {
  }

  /** Behind an unescaped '[' the scan for a ']' ends in the escape of the first wildcard, if any. */
  lemma {:induction false} ScanEscaped(rest: string)
    requires ']' !in rest
    ensures HasWild(rest) ==> ScanSet(OnePass(rest)).Some? && |ScanSet(OnePass(rest)).value.0| > 1
    ensures !HasWild(rest) ==> ScanSet(OnePass(rest)).None?
  {
    hide ClosesLater, HasWild;
    if rest == "" {
      NothingWild();
    } else {
      var tail := rest[1..];
      ScanEscaped(tail);
      HasWildStep(rest);
      NeverCloses(tail);
      var escaped := OnePass(tail);
      if rest[0] == '\\' {
        assert ("\\\\" + escaped)[2..] == escaped;
      } else if IsWild(rest[0]) {
        assert EscapedChar(rest[0], tail) == "[" + [rest[0]] + "]";
        ScanWildEscape(rest[0], escaped);
      } else {
        assert ([rest[0]] + escaped)[1..] == escaped;
      }
    }
  }

  lemma NothingWild()
    ensures !HasWild("")
  {
  }

  lemma NeverCloses(rest: string)
    requires ']' !in rest
    ensures !ClosesLater(rest)
  {
  }

  /** The escape of one character c in brackets is read as c. */
  lemma ScanWildEscape(c: char, after: string)
    requires c != ']' && c != '\\'
    ensures ScanSet("[" + [c] + "]" + after) == Some(("[" + [c], 2))
    ensures ScanSet([c] + "]" + after) == Some(([c], 1))
  {
    var u := [c] + "]" + after;
    assert u[1..] == "]" + after;
    assert ScanSet(u[1..]) == Some(("", 0));
    assert [c] + "" == [c];
    assert ("[" + [c] + "]" + after)[1..] == u;
  }

  /** Reading the escape of a segment back gives the segment, or nothing. */
  lemma {:induction false} LiteralOfEscaped(s: string)
    requires '/' !in s
    ensures Literal(OnePass(s)) == if OpenBracketBeforeWild(s) then None else Some(s)
  {
    hide ClosesLater, HasWild, Literal, OpenBracketBeforeWild, ScanSet;
    if s == "" {
      NothingToRead();
    } else {
      var c, rest, escaped := s[0], s[1..], OnePass(s[1..]);
      assert s == [c] + rest;
      LiteralOfEscaped(rest);
      OpenBracketStep(s);
      if c == '\\' {
        BackslashIsLiteral(escaped);
      } else if IsWild(c) || (c == '[' && ClosesLater(rest)) {
        assert EscapedChar(c, rest) == "[" + [c] + "]";
        BracketedIsLiteral(c, escaped);
        if c == '[' {
          ClosesHasBracket(rest);
        }
      } else if c == '[' {
        BareBracket(rest);
      } else {
        PlainIsLiteral(c, escaped);
      }
    }
  }

  lemma NothingToRead()
    ensures Literal("") == Some("") && !OpenBracketBeforeWild("")
  {
  }

  lemma ClosesHasBracket(rest: string)
    requires ClosesLater(rest)
    ensures ']' in rest
  {
  }

  lemma BackslashIsLiteral(after: string)
    ensures Literal("\\\\" + after) == Prepend('\\', Literal(after))
  {
  }

  lemma PlainIsLiteral(c: char, after: string)
    requires c != '\\' && c != '[' && !IsWild(c)
    ensures Literal([c] + after) == Prepend(c, Literal(after))
  {
  }

  lemma BracketedIsLiteral(c: char, after: string)
    requires c != ']' && c != '\\'
    ensures Literal("[" + [c] + "]" + after) == Prepend(c, Literal(after))
  {
    var t := "[" + [c] + "]" + after;
    ScanWildEscape(c, after);
    assert t[1..] == [c] + "]" + after;
    assert t[3..] == after;
  }

  /** A '[' left bare is read as itself unless the escape of a wildcard closes it. */
  lemma BareBracket(rest: string)
    requires '/' !in rest && !ClosesLater(rest)
    ensures Literal("[" + OnePass(rest))
            == if ']' !in rest && HasWild(rest) then None else Prepend('[', Literal(OnePass(rest)))
  {
    hide ClosesLater, HasWild;
    var escaped := OnePass(rest);
    var t := "[" + escaped;
    assert t[1..] == escaped;
    if rest != "" && rest[0] == ']' {
      assert escaped[0] == ']';
    } else {
      OnlyFirstCanClose(rest);
      ScanEscaped(rest);
    }
  }

  lemma OnlyFirstCanClose(rest: string)
    requires '/' !in rest && !ClosesLater(rest)
    ensures ']' in rest ==> rest[0] == ']'
  {
  }

  /** A segment without slashes survives escaping and reading back exactly when it has no '[' that
      has no ']' behind it but a '?' or '*' behind it. */
  lemma EscapeRoundTrip(s: string)
    requires '/' !in s
    ensures OrEmpty(Literal(GlobEscape(s))) == s <==> !OpenBracketBeforeWild(s)
  {
    EscapeIsOnePass(s);
    LiteralOfEscaped(s);
  }

  /** "[?" is escaped to "[[?]", which is read as a character set of two. */
  lemma OpenBracketIsLost()
    ensures OrEmpty(Literal(GlobEscape("[?"))) == ""
  {
    var s := "[?";
    EscapeIsOnePass(s);
    LiteralOfEscaped(s);
    assert s[0] == '[' && s[1..] == "?" && IsWild("?"[0]);
    assert HasWild("?");
  }

  /** Sets of one character are read as that character, and a set whose first character is "]" as its
      own text. The compiler takes "!" and "^" at the start of a set for a negation, and "]" there for
      a member, so these four segments accept other names than the literals read from them. */
  lemma MisreadSets()
    ensures OrEmpty(Literal("[!]")) == "!" && OrEmpty(Literal("[^]")) == "^"
    ensures OrEmpty(Literal("[]]")) == "[]]" && OrEmpty(Literal("[]a]")) == "[]a]"
  {
  }
}
