/** The hand-written peer-list printer and parser of cmd/validator/main.go. */
module PeerList {
  import opened ByteStrings

  // ---------------------------------------------------------------- splitting and joining

  /** The separator stands at position `j`; the first `n` characters have been compared. */
  predicate Matches(s: string, sep: string, j: nat, n: nat)
    requires n <= |sep| && j + |sep| <= |s|
    decreases |sep| - n
  {
    n == |sep| || (s[j + n] == sep[n] && Matches(s, sep, j, n + 1))
  }

  predicate At(s: string, sep: string, j: nat) {
    j + |sep| <= |s| && Matches(s, sep, j, 0)
  }

  lemma {:induction false} MatchesSlice(s: string, sep: string, j: nat, n: nat)
    requires n <= |sep| && j + |sep| <= |s|
    ensures Matches(s, sep, j, n) <==> s[j + n..j + |sep|] == sep[n..]
    decreases |sep| - n
  {
    if n < |sep| {
      var a, b := s[j + n..j + |sep|], sep[n..];
      MatchesSlice(s, sep, j, n + 1);
      assert a == [s[j + n]] + s[j + n + 1..j + |sep|] && b == [sep[n]] + sep[n + 1..];
      assert a[1..] == s[j + n + 1..j + |sep|] && b[1..] == sep[n + 1..];
    }
  }

  /** Standing there means that the slice of that length equals the separator. */
  lemma AtIsSlice(s: string, sep: string, j: nat)
    ensures At(s, sep, j) <==> j + |sep| <= |s| && s[j..j + |sep|] == sep
  {
    if j + |sep| <= |s| {
      MatchesSlice(s, sep, j, 0);
      assert sep[0..] == sep;
    }
  }

  /** The first position of the separator from `i` on, or -1. */
  function First(s: string, sep: string, i: nat): (k: int)
    requires sep != ""
    ensures k == -1 || (i <= k && k + |sep| <= |s|)
    decreases |s| - i
  {
    if i + |sep| > |s| then -1
    else if At(s, sep, i) then i
    else First(s, sep, i + 1)
  }

  ghost predicate NoneIn(s: string, sep: string, i: nat, k: int) {
    forall j :: i <= j < k ==> !At(s, sep, j)
  }

  lemma {:induction false} FirstIsFirst(s: string, sep: string, i: nat)
    requires sep != "" && i <= |s|
    ensures var k := First(s, sep, i);
            if k >= 0 then At(s, sep, k) && NoneIn(s, sep, i, k) else NoneIn(s, sep, i, |s|)
    decreases |s| - i
  {
    if i + |sep| <= |s| && !At(s, sep, i) { FirstIsFirst(s, sep, i + 1); }
  }

  /** Cut the rest of the string at each leftmost separator. */
  function Pieces(s: string, sep: string, start: nat): (parts: seq<string>)
    requires sep != "" && start <= |s|
    ensures parts != []
    decreases |s| - start
  {
    var k := First(s, sep, start);
    if k < 0 then [s[start..]] else [s[start..k]] + Pieces(s, sep, k + |sep|)
  }

  function Split(s: string, sep: string): (parts: seq<string>)
    requires sep != ""
  {
    if s == "" then [] else Pieces(s, sep, 0)
  }

  function Join(parts: seq<string>, sep: string): (s: string) {
    if parts == [] then ""
    else if |parts| == 1 then parts[0]
    else parts[0] + sep + Join(parts[1..], sep)
  }

  lemma JoinCons(x: string, rest: seq<string>, sep: string)
    requires rest != []
    ensures Join([x] + rest, sep) == x + sep + Join(rest, sep)
  {
    assert ([x] + rest)[1..] == rest;
  }

  lemma ThreeSlices(s: string, a: nat, b: nat, c: nat)
    requires a <= b <= c <= |s|
    ensures s[a..] == s[a..b] + s[b..c] + s[c..]
  {
  }

  lemma {:induction false} JoinPieces(s: string, sep: string, start: nat)
    requires sep != "" && start <= |s|
    ensures Join(Pieces(s, sep, start), sep) == s[start..]
    decreases |s| - start
  {
    var k := First(s, sep, start);
    FirstIsFirst(s, sep, start);
    if k >= 0 {
      JoinPieces(s, sep, k + |sep|);
      AtIsSlice(s, sep, k);
      JoinCons(s[start..k], Pieces(s, sep, k + |sep|), sep);
      ThreeSlices(s, start, k, k + |sep|);
    }
  }

  /** Rejoining the pieces restores every string, for every separator that is not empty. */
  lemma JoinSplit(s: string, sep: string)
    requires sep != ""
    ensures Join(Split(s, sep), sep) == s
  {
    JoinPieces(s, sep, 0);
    assert s[0..] == s;
  }

  ghost predicate Free(parts: seq<string>, c: char) {
    forall i :: 0 <= i < |parts| ==> c !in parts[i]
  }

  lemma AtChar(s: string, c: char, j: nat)
    ensures At(s, [c], j) <==> j < |s| && s[j] == c
  {
    if j < |s| { assert Matches(s, [c], j, 0) <==> s[j] == c && Matches(s, [c], j, 1); }
  }

  lemma NoneBefore(s: string, c: char, i: nat, k: nat)
    requires i <= k <= |s| && NoneIn(s, [c], i, k)
    ensures c !in s[i..k]
  {
    forall j | i <= j < k ensures s[j] != c { AtChar(s, c, j); }
  }

  /** Pieces between one-character separators do not contain the separator. */
  lemma {:induction false} PiecesFree(s: string, c: char, start: nat)
    requires start <= |s|
    ensures Free(Pieces(s, [c], start), c)
    decreases |s| - start
  {
    var k := First(s, [c], start);
    FirstIsFirst(s, [c], start);
    if k >= 0 {
      NoneBefore(s, c, start, k);
      PiecesFree(s, c, k + 1);
    } else {
      NoneBefore(s, c, start, |s|);
      assert s[start..|s|] == s[start..];
    }
  }

  lemma {:induction false} FirstIs(s: string, c: char, i: nat, k: nat)
    requires i <= k <= |s| && c !in s[i..k] && (k < |s| ==> s[k] == c)
    ensures First(s, [c], i) == if k < |s| then k else -1
    decreases k - i
  {
    if i < |s| { AtChar(s, c, i); }
    if i < k {
      assert s[i..k][0] == s[i] && s[i + 1..k] == s[i..k][1..];
      FirstIs(s, c, i + 1, k);
    }
  }

  /** Parts without the separator survive joining and cutting again. */
  lemma {:induction false} PiecesJoin(before: string, parts: seq<string>, c: char)
    requires parts != [] && Free(parts, c)
    ensures Pieces(before + Join(parts, [c]), [c], |before|) == parts
    decreases |parts|
  {
    var s, k := before + Join(parts, [c]), |before| + |parts[0]|;
    if |parts| == 1 {
      assert s[|before|..k] == parts[0] == s[|before|..];
      FirstIs(s, c, |before|, k);
    } else {
      var longer := before + parts[0] + [c];
      assert s == longer + Join(parts[1..], [c]);
      assert s[|before|..k] == parts[0] && s[k] == c;
      FirstIs(s, c, |before|, k);
      PiecesJoin(longer, parts[1..], c);
    }
  }

  lemma SplitJoin(parts: seq<string>, c: char)
    requires Free(parts, c) && (parts != [] ==> Join(parts, [c]) != "")
    ensures Split(Join(parts, [c]), [c]) == parts
  {
    if parts != [] {
      PiecesJoin("", parts, c);
      assert "" + Join(parts, [c]) == Join(parts, [c]);
    }
  }

  /** The loop of `splitString` has cut everything before `start` and seen no separator from there to `i`. */
  ghost predicate Scanned(s: string, sep: string, result: seq<string>, start: nat, i: nat)
    requires sep != ""
  {
    && start <= i <= |s|
    && First(s, sep, start) == First(s, sep, i)
    && result + Pieces(s, sep, start) == Pieces(s, sep, 0)
  }

  lemma ScanSkip(s: string, sep: string, result: seq<string>, start: nat, i: nat)
    requires sep != "" && i < |s| && Scanned(s, sep, result, start, i) && !At(s, sep, i)
    ensures Scanned(s, sep, result, start, i + 1)
  {
  }

  lemma Regroup<T>(a: seq<T>, x: T, b: seq<T>)
    ensures (a + [x]) + b == a + ([x] + b)
  {
  }

  lemma ScanCut(s: string, sep: string, result: seq<string>, start: nat, i: nat)
    requires sep != "" && Scanned(s, sep, result, start, i) && At(s, sep, i)
    ensures Scanned(s, sep, result + [s[start..i]], i + |sep|, i + |sep|)
  {
    assert First(s, sep, i) == i;
    Regroup(result, s[start..i], Pieces(s, sep, i + |sep|));
  }

  lemma ScanEnd(s: string, sep: string, result: seq<string>, start: nat)
    requires sep != "" && Scanned(s, sep, result, start, |s|)
    ensures result + [s[start..]] == Pieces(s, sep, 0)
  {
  }

  /** `splitString`: after a separator the scan goes on behind it. */
  method SplitString(s: string, sep: string) returns (result: seq<string>)
    requires sep != ""
    ensures result == Split(s, sep)
  {
    if s == "" { return []; }
    result := [];
    var start, i := 0, 0;
    while i < |s|
      invariant 0 <= start <= i <= |s| && Scanned(s, sep, result, start, i)
    {
      if At(s, sep, i) {
        ScanCut(s, sep, result, start, i);
        result := result + [s[start..i]];
        start := i + |sep|;
        i := i + |sep| - 1;
      } else {
        ScanSkip(s, sep, result, start, i);
      }
      i := i + 1;
    }
    ScanEnd(s, sep, result, start);
    result := result + [s[start..]];
  }

  // ---------------------------------------------------------------- trimming

  predicate IsSpace(c: char) { c == ' ' || c == '\t' || c == '\n' || c == '\r' }

  function TrimLeft(s: string): (t: string) {
    if s != "" && IsSpace(s[0]) then TrimLeft(s[1..]) else s
  }

  function TrimRight(s: string): (t: string) {
    if s != "" && IsSpace(s[|s| - 1]) then TrimRight(s[..|s| - 1]) else s
  }

  function Trim(s: string): (t: string) { TrimRight(TrimLeft(s)) }

  predicate Trimmed(s: string) {
    s == "" || (!IsSpace(s[0]) && !IsSpace(s[|s| - 1]))
  }

  lemma {:induction false} TrimLeftFacts(s: string)
    ensures TrimLeft(s) == "" || !IsSpace(TrimLeft(s)[0])
    ensures forall c :: c in TrimLeft(s) ==> c in s
    decreases |s|
  {
    if s != "" && IsSpace(s[0]) { TrimLeftFacts(s[1..]); }
  }

  lemma {:induction false} TrimRightFacts(s: string)
    ensures TrimRight(s) <= s
    ensures TrimRight(s) == "" || !IsSpace(TrimRight(s)[|TrimRight(s)| - 1])
  {
    if s != "" && IsSpace(s[|s| - 1]) { TrimRightFacts(s[..|s| - 1]); }
  }

  /** The result has no space at either end, and a string without such spaces is left alone. */
  lemma TrimExact(s: string)
    ensures Trimmed(Trim(s)) && (forall c :: c in Trim(s) ==> c in s)
    ensures Trim(s) == s <==> Trimmed(s)
  {
    TrimLeftFacts(s);
    TrimRightFacts(TrimLeft(s));
    forall c | c in Trim(s) ensures c in s { assert c in TrimLeft(s); }
  }

  ghost predicate Blank(s: string) {
    forall i :: 0 <= i < |s| ==> s[i] == ' ' || s[i] == '\t' || s[i] == '\n' || s[i] == '\r'
  }

  lemma {:induction false} TrimLeftCuts(s: string) returns (a: string)
    ensures Blank(a) && s == a + TrimLeft(s)
    decreases |s|
  {
    if s != "" && IsSpace(s[0]) {
      var rest := TrimLeftCuts(s[1..]);
      a := [s[0]] + rest;
      assert s == [s[0]] + s[1..];
    } else {
      a := "";
    }
  }

  lemma {:induction false} TrimRightCuts(s: string) returns (b: string)
    ensures Blank(b) && s == TrimRight(s) + b
  {
    if s != "" && IsSpace(s[|s| - 1]) {
      var rest := TrimRightCuts(s[..|s| - 1]);
      b := rest + [s[|s| - 1]];
      assert s == s[..|s| - 1] + [s[|s| - 1]];
    } else {
      b := "";
    }
  }

  /** Only blanks, tabs, newlines and carriage returns are cut off, at both ends, and all of them are. */
  lemma TrimCuts(s: string) returns (a: string, b: string)
    ensures s == a + Trim(s) + b && Blank(a) && Blank(b)
    ensures Trim(s) != "" ==> !Blank(Trim(s)[..1]) && !Blank(Trim(s)[|Trim(s)| - 1..])
  {
    a := TrimLeftCuts(s);
    b := TrimRightCuts(TrimLeft(s));
    TrimExact(s);
    var t := Trim(s);
    if t != "" {
      assert t[..1][0] == t[0] && t[|t| - 1..][0] == t[|t| - 1];
    }
  }

  lemma LeftStep(s: string, start: nat)
    requires start < |s|
    ensures TrimLeft(s[start..]) == if IsSpace(s[start]) then TrimLeft(s[start + 1..]) else s[start..]
  {
    assert s[start..][0] == s[start] && s[start..][1..] == s[start + 1..];
  }

  lemma RightStep(s: string, start: nat, end: nat)
    requires start < end <= |s|
    ensures TrimRight(s[start..end]) == if IsSpace(s[end - 1]) then TrimRight(s[start..end - 1]) else s[start..end]
  {
    var t := s[start..end];
    assert t[|t| - 1] == s[end - 1] && t[..|t| - 1] == s[start..end - 1];
  }

  /** `trimWhitespace`. */
  method TrimWhitespace(s: string) returns (t: string)
    ensures t == Trim(s)
  {
    var start, end := 0, |s|;
    assert s[0..] == s;
    while start < end && IsSpace(s[start])
      invariant 0 <= start <= end == |s| && TrimLeft(s[start..]) == TrimLeft(s)
    {
      LeftStep(s, start);
      start := start + 1;
    }
    if start < end { LeftStep(s, start); }
    assert s[start..end] == s[start..] == TrimLeft(s);
    while end > start && IsSpace(s[end - 1])
      invariant start <= end <= |s| && TrimRight(s[start..end]) == Trim(s)
    {
      RightStep(s, start, end);
      end := end - 1;
    }
    if start < end { RightStep(s, start, end); }
    t := s[start..end];
  }

  /** Trim every part and drop those that become empty. */
  function Tidy(parts: seq<string>): (out: seq<string>) {
    if parts == [] then []
    else
      var rest := Tidy(parts[..|parts| - 1]);
      var t := Trim(parts[|parts| - 1]);
      if t == "" then rest else rest + [t]
  }

  ghost predicate IsTidy(parts: seq<string>) {
    forall i :: 0 <= i < |parts| ==> parts[i] != "" && Trimmed(parts[i])
  }

  lemma {:induction false} TidyFacts(parts: seq<string>)
    ensures IsTidy(Tidy(parts))
  {
    if parts != [] {
      TidyFacts(parts[..|parts| - 1]);
      TrimExact(parts[|parts| - 1]);
    }
  }

  lemma {:induction false} TidyFree(parts: seq<string>, c: char)
    requires Free(parts, c)
    ensures Free(Tidy(parts), c)
  {
    if parts != [] {
      TidyFree(parts[..|parts| - 1], c);
      TrimExact(parts[|parts| - 1]);
    }
  }

  lemma {:induction false} TidyKeeps(parts: seq<string>)
    requires IsTidy(parts)
    ensures Tidy(parts) == parts
  {
    if parts != [] {
      TidyKeeps(parts[..|parts| - 1]);
      TrimExact(parts[|parts| - 1]);
      assert parts == parts[..|parts| - 1] + [parts[|parts| - 1]];
    }
  }

  /** `splitAndTrim`. */
  method SplitAndTrim(s: string, sep: string) returns (parts: seq<string>)
    requires sep != ""
    ensures parts == Tidy(Split(s, sep))
  {
    var raw := SplitString(s, sep);
    parts := [];
    for i := 0 to |raw|
      invariant parts == Tidy(raw[..i])
    {
      assert raw[..i + 1][..i] == raw[..i] && raw[..i + 1][i] == raw[i];
      var trimmed := TrimWhitespace(raw[i]);
      if trimmed != "" { parts := parts + [trimmed]; }
    }
    assert raw[..|raw|] == raw;
  }

  // ---------------------------------------------------------------- peers

  datatype Peer = Peer(id: string, address: string)

  function ParsePeer(pair: string): (p: Option<Peer>) {
    var parts := Tidy(Split(pair, ":"));
    if |parts| >= 2 then Some(Peer(parts[0], Join(parts[1..], ":"))) else None
  }

  function ParseAll(pairs: seq<string>): (peers: seq<Peer>) {
    if pairs == [] then []
    else
      var rest := ParseAll(pairs[..|pairs| - 1]);
      var p := ParsePeer(pairs[|pairs| - 1]);
      if p.Some? then rest + [p.value] else rest
  }

  /** `parseRaftPeers` as a function of the text. */
  function Parse(text: string): (peers: seq<Peer>) { ParseAll(Tidy(Split(text, ","))) }

  function RenderPeer(p: Peer): (s: string) { p.id + ":" + p.address }

  function RenderAll(peers: seq<Peer>): (parts: seq<string>)
    ensures |parts| == |peers| && forall i :: 0 <= i < |peers| ==> parts[i] == RenderPeer(peers[i])
  {
    if peers == [] then [] else RenderAll(peers[..|peers| - 1]) + [RenderPeer(peers[|peers| - 1])]
  }

  /** The peer string that is built from the configuration file. */
  function Render(peers: seq<Peer>): (s: string) { Join(RenderAll(peers), ",") }

  /** Trimmed, not empty, without commas; no colon in the id, no empty or untrimmed part in the address. */
  ghost predicate WellFormed(p: Peer) {
    && p.id != "" && Trimmed(p.id) && ':' !in p.id && ',' !in p.id
    && p.address != "" && ',' !in p.address && IsTidy(Split(p.address, ":"))
  }

  lemma {:induction false} JoinCharacters(parts: seq<string>, c: char, d: char)
    requires Free(parts, d) && c != d
    ensures d !in Join(parts, [c])
  {
    if |parts| > 1 { JoinCharacters(parts[1..], c, d); }
  }

  lemma JoinNotEmpty(parts: seq<string>, sep: string)
    requires parts != [] && parts[0] != ""
    ensures Join(parts, sep) != ""
  {
  }

  lemma {:induction false} TidyJoinIsTrimmed(parts: seq<string>, c: char)
    requires IsTidy(parts) && parts != []
    ensures Join(parts, [c]) != "" && Trimmed(Join(parts, [c]))
  {
    if |parts| > 1 { TidyJoinIsTrimmed(parts[1..], c); }
  }

  lemma {:induction false} PiecesCharacters(s: string, sep: string, d: char, start: nat)
    requires sep != "" && start <= |s| && d !in s
    ensures Free(Pieces(s, sep, start), d)
    decreases |s| - start
  {
    var k := First(s, sep, start);
    if k >= 0 { PiecesCharacters(s, sep, d, k + |sep|); }
  }

  lemma TidyPieces(pair: string)
    requires ',' !in pair
    ensures var parts := Tidy(Split(pair, ":")); IsTidy(parts) && Free(parts, ':') && Free(parts, ',')
  {
    var raw := Split(pair, ":");
    PiecesFree(pair, ':', 0);
    PiecesCharacters(pair, ":", ',', 0);
    TidyFacts(raw);
    TidyFree(raw, ':');
    TidyFree(raw, ',');
  }

  /** A parsed peer is well-formed, whatever the text was. */
  lemma ParsePeerWellFormed(pair: string)
    requires ',' !in pair && ParsePeer(pair).Some?
    ensures WellFormed(ParsePeer(pair).value)
  {
    TidyPieces(pair);
    var tail := Tidy(Split(pair, ":"))[1..];
    JoinCharacters(tail, ':', ',');
    JoinNotEmpty(tail, ":");
    SplitJoin(tail, ':');
  }

  lemma {:induction false} ParseAllWellFormed(pairs: seq<string>)
    requires Free(pairs, ',')
    ensures forall p :: p in ParseAll(pairs) ==> WellFormed(p)
  {
    if pairs != [] {
      var last := pairs[|pairs| - 1];
      ParseAllWellFormed(pairs[..|pairs| - 1]);
      if ParsePeer(last).Some? { ParsePeerWellFormed(last); }
    }
  }

  lemma ParseWellFormed(text: string)
    ensures forall p :: p in Parse(text) ==> WellFormed(p)
  {
    PiecesFree(text, ',', 0);
    TidyFree(Split(text, ","), ',');
    ParseAllWellFormed(Tidy(Split(text, ",")));
  }

  lemma RenderPeerFacts(p: Peer)
    requires WellFormed(p)
    ensures RenderPeer(p) != "" && Trimmed(RenderPeer(p)) && ',' !in RenderPeer(p)
  {
    JoinSplit(p.address, ":");
    TidyJoinIsTrimmed(Split(p.address, ":"), ':');
  }

  /** One well-formed peer survives printing and parsing. */
  lemma PeerRoundTrip(p: Peer)
    requires WellFormed(p)
    ensures ParsePeer(RenderPeer(p)) == Some(p)
  {
    var parts := Split(p.address, ":");
    var all := [p.id] + parts;
    JoinSplit(p.address, ":");
    PiecesFree(p.address, ':', 0);
    assert all[1..] == parts;
    assert Join(all, ":") == RenderPeer(p);
    SplitJoin(all, ':');
    TidyKeeps(all);
  }

  ghost predicate Survives(p: Peer) { ParsePeer(RenderPeer(p)) == Some(p) }

  lemma RenderAllNext(front: seq<Peer>, last: Peer)
    ensures RenderAll(front + [last]) == RenderAll(front) + [RenderPeer(last)]
  {
    assert (front + [last])[..|front|] == front;
  }

  lemma ParseAllSnoc(front: seq<string>, last: string)
    ensures var p := ParsePeer(last);
            ParseAll(front + [last]) == if p.Some? then ParseAll(front) + [p.value] else ParseAll(front)
  {
    assert (front + [last])[..|front|] == front;
  }

  lemma ParseAllNext(pairs: seq<string>, i: nat)
    requires i < |pairs|
    ensures var p, front := ParsePeer(pairs[i]), ParseAll(pairs[..i]);
            ParseAll(pairs[..i + 1]) == if p.Some? then front + [p.value] else front
  {
    assert pairs[..i + 1] == pairs[..i] + [pairs[i]];
    ParseAllSnoc(pairs[..i], pairs[i]);
  }

  lemma {:induction false} ParseRendered(peers: seq<Peer>)
    requires forall i :: 0 <= i < |peers| ==> Survives(peers[i])
    ensures ParseAll(RenderAll(peers)) == peers
  {
    if peers != [] {
      var front, last := peers[..|peers| - 1], peers[|peers| - 1];
      assert front + [last] == peers && Survives(last);
      ParseRendered(front);
      RenderAllNext(front, last);
      ParseAllSnoc(RenderAll(front), RenderPeer(last));
    }
  }

  lemma RenderedIsTidy(peers: seq<Peer>)
    requires forall i :: 0 <= i < |peers| ==> WellFormed(peers[i])
    ensures IsTidy(RenderAll(peers)) && Free(RenderAll(peers), ',')
  {
    forall i | 0 <= i < |peers|
      ensures RenderPeer(peers[i]) != "" && Trimmed(RenderPeer(peers[i])) && ',' !in RenderPeer(peers[i])
    {
      RenderPeerFacts(peers[i]);
    }
  }

  lemma RenderedRoundTrip(peers: seq<Peer>)
    requires forall p :: p in peers ==> WellFormed(p)
    ensures Parse(Render(peers)) == peers
  {
    forall i | 0 <= i < |peers| ensures WellFormed(peers[i]) && Survives(peers[i]) {
      assert peers[i] in peers;
      PeerRoundTrip(peers[i]);
    }
    ParseRendered(peers);
    RenderedIsTidy(peers);
    if peers != [] { JoinNotEmpty(RenderAll(peers), ","); }
    SplitJoin(RenderAll(peers), ',');
    TidyKeeps(RenderAll(peers));
  }

  /** Printing and parsing gives a peer list back exactly when each of its peers is well-formed. */
  lemma RoundTrip(peers: seq<Peer>)
    ensures Parse(Render(peers)) == peers <==> forall p :: p in peers ==> WellFormed(p)
  {
    ParseWellFormed(Render(peers));
    if forall p :: p in peers ==> WellFormed(p) { RenderedRoundTrip(peers); }
  }

  /** Printing what was parsed and parsing it again changes nothing. */
  lemma ParseIsStable(text: string)
    ensures Parse(Render(Parse(text))) == Parse(text)
  {
    ParseWellFormed(text);
    RenderedRoundTrip(Parse(text));
  }

  /** The peers whose id is repeated later give way to the later one. */
  function Endpoints(peers: seq<Peer>): (m: map<string, string>) {
    if peers == [] then map[]
    else Endpoints(peers[..|peers| - 1])[peers[|peers| - 1].id := peers[|peers| - 1].address]
  }

  lemma EndpointsNext(peers: seq<Peer>, p: Peer)
    ensures Endpoints(peers + [p]) == Endpoints(peers)[p.id := p.address]
  {
    assert (peers + [p])[..|peers|] == peers;
  }

  lemma {:induction false} EndpointsLastWins(peers: seq<Peer>, i: nat)
    requires i < |peers| && forall j :: i < j < |peers| ==> peers[j].id != peers[i].id
    ensures peers[i].id in Endpoints(peers) && Endpoints(peers)[peers[i].id] == peers[i].address
  {
    if i < |peers| - 1 { EndpointsLastWins(peers[..|peers| - 1], i); }
  }

  lemma {:induction false} EndpointsKeys(peers: seq<Peer>)
    ensures Endpoints(peers).Keys == set i | 0 <= i < |peers| :: peers[i].id
  {
    if peers != [] {
      var front := peers[..|peers| - 1];
      EndpointsKeys(front);
      assert Endpoints(peers).Keys == Endpoints(front).Keys + {peers[|peers| - 1].id};
      forall id | id in Endpoints(peers).Keys ensures exists i :: 0 <= i < |peers| && peers[i].id == id {
        if id in Endpoints(front).Keys {
          var i :| 0 <= i < |front| && front[i].id == id;
          assert peers[i].id == id;
        }
      }
    }
  }

  /** A rendered list of well-formed peers with distinct ids comes back as exactly that map. */
  lemma EndpointsRoundTrip(peers: seq<Peer>)
    requires forall p :: p in peers ==> WellFormed(p)
    requires forall j, k :: 0 <= j < k < |peers| ==> peers[j].id != peers[k].id
    ensures var m := Endpoints(Parse(Render(peers)));
            && m.Keys == (set i | 0 <= i < |peers| :: peers[i].id)
            && forall i :: 0 <= i < |peers| ==> peers[i].id in m && m[peers[i].id] == peers[i].address
  {
    RenderedRoundTrip(peers);
    EndpointsKeys(peers);
    forall i | 0 <= i < |peers|
      ensures peers[i].id in Endpoints(peers) && Endpoints(peers)[peers[i].id] == peers[i].address
    {
      EndpointsLastWins(peers, i);
    }
  }

  // ---------------------------------------------------------------- the loops

  /** Split a pair at its colons and glue the address together again. */
  method ParsePair(pair: string) returns (p: Option<Peer>)
    ensures p == ParsePeer(pair)
  {
    var parts := SplitAndTrim(pair, ":");
    if |parts| < 2 { return None; }
    var address := parts[1];
    assert parts[1..2] == [parts[1]];
    for i := 2 to |parts|
      invariant address == Join(parts[1..i], ":")
    {
      JoinAppend(parts[1..i], parts[i], ":");
      assert parts[1..i + 1] == parts[1..i] + [parts[i]];
      address := address + ":" + parts[i];
    }
    assert parts[1..|parts|] == parts[1..];
    return Some(Peer(parts[0], address));
  }

  lemma {:induction false} JoinAppend(parts: seq<string>, last: string, sep: string)
    requires parts != []
    ensures Join(parts + [last], sep) == Join(parts, sep) + sep + last
  {
    if |parts| == 1 {
      assert (parts + [last])[1..] == [last];
    } else {
      assert (parts + [last])[1..] == parts[1..] + [last];
      JoinAppend(parts[1..], last, sep);
    }
  }

  method ParseRaftPeers(text: string) returns (peers: seq<Peer>)
    ensures peers == Parse(text)
  {
    peers := [];
    if text == "" { return; }
    var pairs := SplitAndTrim(text, ",");
    for i := 0 to |pairs|
      invariant peers == ParseAll(pairs[..i])
    {
      ParseAllNext(pairs, i);
      var p := ParsePair(pairs[i]);
      if p.Some? { peers := peers + [p.value]; }
    }
    assert pairs[..|pairs|] == pairs;
  }

  lemma EndpointsStep(pairs: seq<string>, i: nat)
    requires i < |pairs|
    ensures var p, m := ParsePeer(pairs[i]), Endpoints(ParseAll(pairs[..i]));
            Endpoints(ParseAll(pairs[..i + 1])) == if p.Some? then m[p.value.id := p.value.address] else m
  {
    assert pairs[..i + 1] == pairs[..i] + [pairs[i]];
    ParseAllSnoc(pairs[..i], pairs[i]);
    var p := ParsePeer(pairs[i]);
    if p.Some? { EndpointsNext(ParseAll(pairs[..i]), p.value); }
  }

  method ParseValidatorEndpoints(text: string) returns (endpoints: map<string, string>)
    ensures endpoints == Endpoints(Parse(text))
  {
    endpoints := map[];
    if text == "" { return; }
    var pairs := SplitAndTrim(text, ",");
    for i := 0 to |pairs|
      invariant endpoints == Endpoints(ParseAll(pairs[..i]))
    {
      EndpointsStep(pairs, i);
      var p := ParsePair(pairs[i]);
      if p.Some? {
        endpoints := endpoints[p.value.id := p.value.address];
      }
    }
    assert pairs[..|pairs|] == pairs;
  }

  /** The loop that builds the peer string from the configuration. */
  method BuildPeerString(peers: seq<Peer>) returns (text: string)
    ensures text == Render(peers)
  {
    text := "";
    for i := 0 to |peers|
      invariant text == Render(peers[..i])
    {
      var front := peers[..i];
      assert peers[..i + 1][..i] == front && peers[..i + 1][i] == peers[i];
      if i > 0 {
        JoinAppend(RenderAll(front), RenderPeer(peers[i]), ",");
        text := text + ",";
      }
      text := text + (peers[i].id + ":" + peers[i].address);
    }
    assert peers[..|peers|] == peers;
  }
}
