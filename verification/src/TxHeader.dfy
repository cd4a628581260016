/** The header CMailClient::Tx puts before a message, and the parser that gets the
    recipients back out of it. */
module TxHeader {
  import opened Bytes
  import opened Receips

  const FROM: bytes := [70, 114, 111, 109, 58, 32, 60]
  const TO: bytes := [84, 111, 58, 32, 32, 32, 32, 32, 32, 32, 32]
  const SUBJECT: bytes := [83, 117, 98, 106, 101, 99, 116, 58, 32, 66, 105, 116, 77, 97, 105, 108]
  const OPEN: byte := 60   // <
  const CLOSE: byte := 62  // >

  // ---------------------------------------------------------------- the header of Tx

  /** The lines of the recipients, each with its line break. */
  function RecipientLines(to: seq<bytes>): bytes {
    if to == [] then []
    else RecipientLine(to[0], |to| > 1) + CRLF + RecipientLines(to[1..])
  }

  /** One recipient: eleven blanks, the address in angle brackets, a comma unless it is the last. */
  function RecipientLine(a: bytes, more: bool): bytes {
    Spaces(11) + [OPEN] + a + [CLOSE] + if more then [COMMA] else []
  }

  function Mail(sender: bytes, to: seq<bytes>, body: bytes): bytes {
    FROM + sender + [CLOSE] + CRLF + (TO + CRLF + (RecipientLines(to) + (SUBJECT + CRLF + body)))
  }

  /** Lines, each ended by CR and LF. */
  function Lines(ls: seq<bytes>): bytes {
    if ls == [] then [] else ls[0] + [13, 10] + Lines(ls[1..])
  }

  /** The header lines of a mail, as they are to be seen. */
  predicate IsHeaderOf(ls: seq<bytes>, sender: bytes, to: seq<bytes>) {
    && |ls| == |to| + 3
    && ls[0] == Ascii("From: <") + sender + Ascii(">")
    && ls[1] == Ascii("To:        ")
    && (forall k :: 0 <= k < |to| ==>
          ls[k + 2] == Ascii("           <") + to[k] + Ascii(if k + 1 < |to| then ">," else ">"))
    && ls[|to| + 2] == Ascii("Subject: BitMail")
  }

  /** The lines of the recipients, without their ends. */
  function ToLines(to: seq<bytes>): (ls: seq<bytes>)
    ensures |ls| == |to|
  {
    if to == [] then [] else [RecipientLine(to[0], |to| > 1)] + ToLines(to[1..])
  }

  lemma {:induction false} LinesAppend(a: seq<bytes>, b: seq<bytes>)
    ensures Lines(a + b) == Lines(a) + Lines(b)
  {
    if a == [] {
      assert a + b == b;
    } else {
      assert (a + b)[1..] == a[1..] + b;
      LinesAppend(a[1..], b);
    }
  }

  lemma {:induction false} ToLinesText(to: seq<bytes>)
    ensures Lines(ToLines(to)) == RecipientLines(to)
  {
    hide RecipientLine;
    if to != [] {
      ToLinesText(to[1..]);
      assert ToLines(to)[1..] == ToLines(to[1..]);
    }
  }

  lemma {:induction false} ToLineAt(to: seq<bytes>, k: nat)
    requires k < |to|
    ensures ToLines(to)[k] == Ascii("           <") + to[k] + Ascii(if k + 1 < |to| then ">," else ">")
  {
    if k == 0 {
      BlanksAndBracket();
      assert Spaces(11) + [OPEN] + to[0] + [CLOSE] + [COMMA] == Spaces(11) + [OPEN] + to[0] + [CLOSE, COMMA];
    } else {
      ToLineAt(to[1..], k - 1);
    }
  }

  lemma BlanksAndBracket()
    ensures Spaces(11) + [OPEN] == Ascii("           <") && Ascii(">") == [CLOSE] && Ascii(">,") == [CLOSE, COMMA]
  {
  }

  lemma Literals()
    ensures FROM == Ascii("From: <") && TO == Ascii("To:        ") && SUBJECT == Ascii("Subject: BitMail")
    ensures [OPEN] == Ascii("<") && [CLOSE] == Ascii(">") && CRLF == [13, 10]
  {
  }

  /** A mail is its header lines and the message: the sender, a line for each recipient in order, and
      the subject, each on its own line, and behind them the message as it is. */
  lemma {:induction false} MailLayout(sender: bytes, to: seq<bytes>, body: bytes) returns (ls: seq<bytes>)
    ensures IsHeaderOf(ls, sender, to) && Mail(sender, to, body) == Lines(ls) + body
  {
    hide RecipientLines, RecipientLine, ToLines, Ascii;
    var head, last := [FROM + sender + [CLOSE], TO], [SUBJECT];
    var mid := ToLines(to);
    ls := head + mid + last;
    Literals();
    forall k | 0 <= k < |to|
      ensures ls[k + 2] == Ascii("           <") + to[k] + Ascii(if k + 1 < |to| then ">," else ">")
    {
      ToLineAt(to, k);
      assert ls[k + 2] == mid[k];
    }
    ToLinesText(to);
    LinesAppend(head + mid, last);
    LinesAppend(head, mid);
    assert head[1..] == [TO] && [TO][1..] == [] && last[1..] == [];
    assert Lines([TO]) == TO + CRLF + [] && Lines(last) == SUBJECT + CRLF + [];
    MailRegrouped(FROM + sender + [CLOSE], TO, RecipientLines(to), SUBJECT, body);
  }

  /** Without line feeds in the sender and the recipients no header line is broken. */
  lemma HeaderLinesAreWhole(ls: seq<bytes>, sender: bytes, to: seq<bytes>)
    requires IsHeaderOf(ls, sender, to) && 10 !in sender && forall k :: 0 <= k < |to| ==> 10 !in to[k]
    ensures forall k :: 0 <= k < |ls| ==> 10 !in ls[k]
  {
    hide Ascii;
    NoLineFeeds();
    forall k | 0 <= k < |ls| ensures 10 !in ls[k] {
      if k == 0 {
        NotIn(Ascii("From: <"), sender, Ascii(">"));
      } else if 2 <= k < |to| + 2 {
        assert ls[(k - 2) + 2] == ls[k];
        NotIn(Ascii("           <"), to[k - 2], Ascii(if k - 2 + 1 < |to| then ">," else ">"));
      }
    }
  }

  lemma NotIn(a: bytes, b: bytes, c: bytes)
    requires 10 !in a && 10 !in b && 10 !in c
    ensures 10 !in a + b + c
  {
  }

  lemma NoLineFeeds()
    ensures 10 !in Ascii("From: <") && 10 !in Ascii(">") && 10 !in Ascii("To:        ") && 10 !in Ascii("           <")
    ensures 10 !in Ascii(">,") && 10 !in Ascii("Subject: BitMail")
  {
  }

  lemma MailRegrouped(a: bytes, b: bytes, c: bytes, d: bytes, e: bytes)
    ensures a + CRLF + (b + CRLF + (c + (d + CRLF + e)))
         == (a + CRLF + (b + CRLF + [])) + c + (d + CRLF + []) + e
  {
  }

  /** The string that Tx streams together; the source needs a recipient. */
  method BuildMail(sender: bytes, to: seq<bytes>, body: bytes) returns (mail: bytes)
    requires to != []
    ensures mail == Mail(sender, to, body)
    ensures exists ls :: IsHeaderOf(ls, sender, to) && mail == Lines(ls) + body
  {
    hide RecipientLines, IsHeaderOf, Lines;
    ghost var ls := MailLayout(sender, to, body);
    mail := FROM + sender + [CLOSE] + CRLF;
    mail := mail + (TO + CRLF);
    ghost var head := mail;
    var lines: bytes := [];
    var it := 0;
    assert to[0..] == to;
    while true
      invariant it < |to| && lines + RecipientLines(to[it..]) == RecipientLines(to)
      decreases |to| - it
    {
      LinesStep(to, it, lines);
      lines := lines + (Spaces(11) + [OPEN] + to[it] + [CLOSE]);
      it := it + 1;
      if it == |to| { break; }
      lines := lines + ([COMMA] + CRLF);
    }
    lines := lines + CRLF;
    mail := mail + lines + (SUBJECT + CRLF + body);
    Grouped(FROM + sender + [CLOSE] + CRLF, TO + CRLF, RecipientLines(to), SUBJECT + CRLF + body);
  }

  lemma Grouped(a: bytes, b: bytes, c: bytes, d: bytes)
    ensures a + b + c + d == a + (b + (c + d))
  {
  }

  lemma LinesStep(to: seq<bytes>, it: nat, lines: bytes)
    requires it < |to|
    ensures it + 1 < |to| ==>
      lines + RecipientLines(to[it..])
        == lines + (Spaces(11) + [OPEN] + to[it] + [CLOSE]) + ([COMMA] + CRLF) + RecipientLines(to[it + 1..])
    ensures it + 1 == |to| ==>
      lines + RecipientLines(to[it..]) == lines + (Spaces(11) + [OPEN] + to[it] + [CLOSE]) + CRLF
  {
    assert to[it..][0] == to[it] && to[it..][1..] == to[it + 1..];
    CommaGrouped(lines, Spaces(11) + [OPEN] + to[it] + [CLOSE], RecipientLines(to[it + 1..]));
  }

  lemma CommaGrouped(a: bytes, b: bytes, c: bytes)
    ensures a + (b + [COMMA] + CRLF + c) == a + b + ([COMMA] + CRLF) + c
    ensures a + (b + [] + CRLF + []) == a + b + CRLF
  {
  }

  // ---------------------------------------------------------------- strtok

  /** The delimiters of parseRFC822AddressList. */
  const DELIMS: set<byte> := {
    126, 96, 33, 36, 37, 94, 38, 42, 45, 43, 61, 92, 123, 125, 91, 93, 63, 60, 62, 40, 41, 34, 39, 58, 44, 59,
    124, 47, 32, 9, 13, 10 }

  predicate IsDelim(b: byte) {
    b in DELIMS
  }

  function RunEnd(s: bytes): (k: nat)
    ensures k <= |s| && (k < |s| ==> IsDelim(s[k])) && forall j :: 0 <= j < k ==> !IsDelim(s[j])
  {
    if s == [] || IsDelim(s[0]) then 0 else 1 + RunEnd(s[1..])
  }

  /** The tokens strtok gives one after the other. */
  function Tokenized(s: bytes): seq<bytes> {
    if s == [] then []
    else if IsDelim(s[0]) then Tokenized(s[1..])
    else [s[..RunEnd(s)]] + Tokenized(s[RunEnd(s)..])
  }

  /** One call of strtok on the rest of the buffer. */
  method NextToken(s: bytes) returns (found: bool, tok: bytes, rest: bytes)
    ensures found ==> |rest| < |s| && tok != [] && Tokenized(s) == [tok] + Tokenized(rest)
    ensures !found ==> Tokenized(s) == []
  {
    hide IsDelim;
    var p := 0;
    assert s[0..] == s;
    while p < |s| && IsDelim(s[p])
      invariant p <= |s| && Tokenized(s[p..]) == Tokenized(s)
    {
      assert s[p..][1..] == s[p + 1..];
      p := p + 1;
    }
    if p == |s| { return false, [], []; }
    var q := p;
    while q < |s| && !IsDelim(s[q])
      invariant p <= q <= |s| && RunEnd(s[p..]) == q - p + RunEnd(s[q..])
    {
      assert s[q..][1..] == s[q + 1..];
      q := q + 1;
    }
    found, tok, rest := true, s[p..q], s[q..];
    assert s[p..][..q - p] == tok && s[p..][q - p..] == rest;
  }

  lemma {:induction false} TokensBehindDelims(d: bytes, rest: bytes)
    requires forall k :: 0 <= k < |d| ==> IsDelim(d[k])
    ensures Tokenized(d + rest) == Tokenized(rest)
  {
    hide IsDelim;
    if d == [] {
      assert d + rest == rest;
    } else {
      assert (d + rest)[1..] == d[1..] + rest;
      TokensBehindDelims(d[1..], rest);
    }
  }

  lemma {:induction false} RunOfWord(w: bytes, rest: bytes)
    requires (forall k :: 0 <= k < |w| ==> !IsDelim(w[k])) && (rest != [] ==> IsDelim(rest[0]))
    ensures RunEnd(w + rest) == |w|
  {
    hide IsDelim;
    if w == [] {
      assert w + rest == rest;
    } else {
      assert (w + rest)[1..] == w[1..] + rest;
      RunOfWord(w[1..], rest);
    }
  }

  lemma {:induction false} TokensOfWord(w: bytes, rest: bytes)
    requires w != [] && (forall k :: 0 <= k < |w| ==> !IsDelim(w[k])) && (rest != [] ==> IsDelim(rest[0]))
    ensures Tokenized(w + rest) == [w] + Tokenized(rest)
  {
    hide IsDelim;
    RunOfWord(w, rest);
    assert (w + rest)[..|w|] == w && (w + rest)[|w|..] == rest;
  }

  // ---------------------------------------------------------------- parseRFC822AddressList

  /** line.erase(line.find('\r')), again and again. */
  function UptoCR(line: bytes): (t: bytes)
    ensures t <= line && CR !in t
    ensures CR !in line ==> t == line
  {
    if line == [] || line[0] == CR then [] else [line[0]] + UptoCR(line[1..])
  }

  /** The line starts with "to:", in any case. */
  predicate IsToLine(line: bytes) {
    ByteAt(line, 0) in {116, 84} && ByteAt(line, 1) in {111, 79} && ByteAt(line, 2) == COLON
  }

  /** A line that is neither empty nor indented ends the folded field. */
  predicate EndsField(line: bytes) {
    ByteAt(line, 0) != NUL && !IsSpace(ByteAt(line, 0))
  }

  /** The field collected from the lines, when `receips` was collected already. */
  function Field(lines: seq<bytes>, receips: bytes): bytes {
    if lines == [] then receips
    else
      var line := UptoCR(lines[0]);
      if receips == [] then Field(lines[1..], if IsToLine(line) then line else [])
      else if EndsField(line) then receips
      else Field(lines[1..], receips + line)
  }

  /** The tokens with an '@', each with a ';' behind it. */
  function Listed(toks: seq<bytes>): bytes {
    if toks == [] then []
    else (if AT in toks[0] then toks[0] + [SEMICOLON] else []) + Listed(toks[1..])
  }

  function AddressList(mail: bytes): bytes {
    Listed(Tokenized(UptoNul(Field(Pieces(mail, LF), []))))
  }

  /** line.erase(pos) as long as there is a CR. */
  method ClearCR(line0: bytes) returns (line: bytes)
    ensures line == UptoCR(line0)
  {
    line := line0;
    while CR in line
      invariant UptoCR(line) == UptoCR(line0)
      decreases |line|
    {
      var pos := FindCR(line);
      CutAtCR(line, pos);
      line := line[..pos];
    }
  }

  method FindCR(line: bytes) returns (pos: nat)
    requires CR in line
    ensures pos < |line| && line[pos] == CR && CR !in line[..pos]
  {
    pos := 0;
    while line[pos] != CR
      invariant pos < |line| && CR !in line[..pos] && CR in line[pos..]
      decreases |line| - pos
    {
      pos := pos + 1;
    }
  }

  lemma {:induction false} CutAtCR(line: bytes, pos: nat)
    requires pos < |line| && line[pos] == CR
    ensures UptoCR(line[..pos]) == UptoCR(line)
  {
    if pos > 0 && line[0] != CR {
      assert line[..pos][1..] == line[1..][..pos - 1];
      CutAtCR(line[1..], pos - 1);
    }
  }

  method ParseRFC822AddressList(mimemsg: bytes) returns (receips: bytes)
    ensures receips == AddressList(mimemsg)
  {
    hide Tokenized, Field, UptoCR, UptoNul, Listed, PiecesFrom;
    receips := CollectField(mimemsg);
    if receips != [] {
      receips := ListAddresses(UptoNul(receips));
    } else {
      NothingListed();
    }
  }

  lemma NothingListed()
    ensures Listed(Tokenized(UptoNul([]))) == []
  {
  }

  lemma {:induction false} FieldStep(line0: bytes, rest: seq<bytes>, receips: bytes)
    ensures var line := UptoCR(line0);
      Field([line0] + rest, receips) ==
        if receips == [] then Field(rest, if IsToLine(line) then line else [])
        else if EndsField(line) then receips
        else Field(rest, receips + line)
    ensures Field([], receips) == receips
  {
    hide UptoCR, IsToLine, EndsField;
    assert ([line0] + rest)[1..] == rest;
  }

  /** The loop over the lines of the message. */
  method CollectField(mimemsg: bytes) returns (receips: bytes)
    ensures receips == Field(Pieces(mimemsg, LF), [])
  {
    hide Field, UptoCR, PiecesFrom;
    receips := [];
    FieldStep([], [], []);
    var ok, line, p := GetLine(mimemsg, 0, LF);
    while ok
      invariant p <= |mimemsg|
      invariant ok ==> Field([line] + PiecesFrom(mimemsg, p, LF), receips) == Field(Pieces(mimemsg, LF), [])
      invariant !ok ==> receips == Field(Pieces(mimemsg, LF), [])
      decreases if ok then |mimemsg| - p + 1 else 0
    {
      FieldStep(line, PiecesFrom(mimemsg, p, LF), receips);
      line := ClearCR(line);
      if receips == [] {
        if ByteAt(line, 0) in {116, 84} && ByteAt(line, 1) in {111, 79} && ByteAt(line, 2) == COLON {
          receips := line;
        }
      } else {
        if ByteAt(line, 0) != NUL && !IsSpace(ByteAt(line, 0)) { break; }
        receips := receips + line;
      }
      FieldStep([], [], receips);
      ok, line, p := GetLine(mimemsg, p, LF);
    }
  }

  /** The strtok loop. */
  method ListAddresses(buf: bytes) returns (receips: bytes)
    ensures receips == Listed(Tokenized(buf))
  {
    hide Tokenized, Listed;
    receips := [];
    ListedStep([], []);
    var found, tok, rest := NextToken(buf);
    assert receips + Listed(Tokenized(buf)) == Listed(Tokenized(buf));
    while found
      invariant found ==> receips + Listed([tok] + Tokenized(rest)) == Listed(Tokenized(buf))
      invariant !found ==> receips == Listed(Tokenized(buf))
      decreases if found then |rest| + 1 else 0
    {
      ListedStep(tok, Tokenized(rest));
      if AT in tok {
        receips := receips + tok;
        receips := receips + [SEMICOLON];
      }
      found, tok, rest := NextToken(rest);
    }
  }

  lemma {:induction false} ListedStep(tok: bytes, toks: seq<bytes>)
    ensures Listed([tok] + toks) == (if AT in tok then tok + [SEMICOLON] else []) + Listed(toks)
    ensures Listed([]) == []
  {
    assert ([tok] + toks)[1..] == toks;
  }

  // ---------------------------------------------------------------- the parser undoes the header

  /** A text that survives the header and the parser: a token with an '@'. */
  ghost predicate IsToken(a: bytes) {
    AT in a && forall k :: 0 <= k < |a| ==> !IsDelim(a[k]) && a[k] != NUL
  }

  /** What the parser collects of the recipient lines. */
  function Folded(to: seq<bytes>): bytes {
    if to == [] then [] else RecipientLine(to[0], |to| > 1) + Folded(to[1..])
  }

  lemma LineIsFolded(a: bytes, more: bool)
    requires IsToken(a)
    ensures var line := RecipientLine(a, more);
      CR !in line && LF !in line && NUL !in line && line != [] && line[0] == SPACE
  {
    assert Spaces(11)[0] == SPACE;
    var line := RecipientLine(a, more);
    assert forall b :: b in line ==> b in Spaces(11) || b == OPEN || b in a || b == CLOSE || b == COMMA;
  }

  /** A line ended by CRLF is what getline and the CR removal leave of it. */
  lemma LineOf(line: bytes, rest: bytes)
    requires LF !in line
    ensures Pieces(line + CRLF + rest, LF) == [line + [CR]] + Pieces(rest, LF)
  {
    hide Pieces;
    assert line + CRLF + rest == (line + [CR]) + [LF] + rest;
    PiecesOfLine(line + [CR], LF, rest);
  }

  lemma {:induction false} CRCut(line: bytes)
    requires CR !in line
    ensures UptoCR(line + [CR]) == line
  {
    if line != [] {
      assert (line + [CR])[1..] == line[1..] + [CR];
      CRCut(line[1..]);
    }
  }

  lemma {:induction false} CRCutFirst(line: bytes)
    requires line != [] && line[0] != CR
    ensures var t := UptoCR(line); t != [] && t[0] == line[0]
  {
  }

  lemma {:induction false} FieldOfLines(to: seq<bytes>, receips: bytes, rest: bytes)
    requires (forall k :: 0 <= k < |to| ==> IsToken(to[k])) && receips != []
    ensures Field(Pieces(RecipientLines(to) + rest, LF), receips) == Field(Pieces(rest, LF), receips + Folded(to))
  {
    hide Pieces, Field, IsToken, RecipientLine, UptoCR;
    if to == [] {
      assert RecipientLines(to) + rest == rest && receips + Folded(to) == receips;
    } else {
      var line, more := RecipientLine(to[0], |to| > 1), RecipientLines(to[1..]);
      LineIsFolded(to[0], |to| > 1);
      LinesFirst(line, more, rest);
      LineOf(line, more + rest);
      CRCut(line);
      FieldStep(line + [CR], Pieces(more + rest, LF), receips);
      FieldOfLines(to[1..], receips + line, rest);
      assert receips + line + Folded(to[1..]) == receips + Folded(to);
    }
  }

  lemma LinesFirst(line: bytes, more: bytes, rest: bytes)
    ensures line + CRLF + more + rest == line + CRLF + (more + rest)
  {
  }

  lemma FromLineIsSkipped(sender: bytes, rest: bytes)
    requires LF !in sender
    ensures Field(Pieces(FROM + sender + [CLOSE] + CRLF + rest, LF), []) == Field(Pieces(rest, LF), [])
  {
    hide Pieces, Field, UptoCR;
    var line := FROM + sender + [CLOSE];
    LineOf(line, rest);
    CRCutFirst(line + [CR]);
    FieldStep(line + [CR], Pieces(rest, LF), []);
  }

  lemma ToLineStarts(rest: bytes)
    ensures Field(Pieces(TO + CRLF + rest, LF), []) == Field(Pieces(rest, LF), TO)
  {
    hide Pieces, Field, UptoCR;
    LineOf(TO, rest);
    CRCut(TO);
    FieldStep(TO + [CR], Pieces(rest, LF), []);
  }

  lemma {:induction false} SubjectEnds(body: bytes, receips: bytes)
    requires receips != []
    ensures Field(Pieces(SUBJECT + CRLF + body, LF), receips) == receips
  {
    hide Pieces, Field, UptoCR;
    LineOf(SUBJECT, body);
    CRCut(SUBJECT);
    FieldStep(SUBJECT + [CR], Pieces(body, LF), receips);
  }

  /** The field the parser collects from a mail of Tx. */
  lemma {:induction false} FieldOfMail(sender: bytes, to: seq<bytes>, body: bytes)
    requires LF !in sender && forall k :: 0 <= k < |to| ==> IsToken(to[k])
    ensures Field(Pieces(Mail(sender, to, body), LF), []) == TO + Folded(to)
  {
    hide Pieces, Field, RecipientLines, Folded, IsToken;
    var end := SUBJECT + CRLF + body;
    FromLineIsSkipped(sender, TO + CRLF + (RecipientLines(to) + end));
    ToLineStarts(RecipientLines(to) + end);
    FieldOfLines(to, TO, end);
    SubjectEnds(body, TO + Folded(to));
  }

  lemma {:induction false} FoldedIsNulFree(to: seq<bytes>)
    requires forall k :: 0 <= k < |to| ==> IsToken(to[k])
    ensures NUL !in Folded(to) && (to != [] ==> Folded(to) != [] && IsDelim(Folded(to)[0]))
  {
    hide IsToken, RecipientLine;
    if to != [] {
      LineIsFolded(to[0], |to| > 1);
      FoldedIsNulFree(to[1..]);
    }
  }

  lemma {:induction false} TokensOfFolded(to: seq<bytes>)
    requires forall k :: 0 <= k < |to| ==> IsToken(to[k])
    ensures Tokenized(Folded(to)) == to
  {
    hide Tokenized, IsToken, IsDelim, Folded;
    if to == [] {
      NothingFolded();
    } else {
      TokensOfFolded(to[1..]);
      TokensOfLine(to[0], |to| > 1, Folded(to[1..]));
      FoldedFirst(to);
    }
  }

  lemma NothingFolded()
    ensures Tokenized(Folded([])) == []
  {
  }

  lemma {:induction false} FoldedFirst(to: seq<bytes>)
    requires to != []
    ensures Folded(to) == RecipientLine(to[0], |to| > 1) + Folded(to[1..])
    ensures [to[0]] + to[1..] == to
  {
    hide RecipientLine;
  }

  lemma {:induction false} TokensOfLine(a: bytes, more: bool, rest: bytes)
    requires IsToken(a)
    ensures Tokenized(RecipientLine(a, more) + rest) == [a] + Tokenized(rest)
  {
    hide Tokenized;
    var lead := Spaces(11) + [OPEN];
    var trail: bytes := [CLOSE] + if more then [COMMA] else [];
    assert RecipientLine(a, more) + rest == lead + (a + (trail + rest));
    TokensBehindDelims(lead, a + (trail + rest));
    TokensOfWord(a, trail + rest);
    TokensBehindDelims(trail, rest);
  }

  lemma {:induction false} TokensOfField(to: seq<bytes>)
    requires forall k :: 0 <= k < |to| ==> IsToken(to[k])
    ensures Tokenized(TO + Folded(to)) == [TO[..2]] + to
  {
    hide Tokenized, Folded, IsToken, IsDelim;
    var word, blanks := TO[..2], TO[2..];
    WordAndBlanks();
    FoldedIsNulFree(to);
    assert TO + Folded(to) == word + (blanks + Folded(to));
    TokensOfWord(word, blanks + Folded(to));
    TokensBehindDelims(blanks, Folded(to));
    TokensOfFolded(to);
  }

  lemma WordAndBlanks()
    ensures forall k :: 0 <= k < |TO[..2]| ==> !IsDelim(TO[..2][k])
    ensures forall k :: 0 <= k < |TO[2..]| ==> IsDelim(TO[2..][k])
    ensures AT !in TO[..2] && NUL !in TO
  {
  }

  /** Each recipient with a ';' behind it. */
  function Terminated(to: seq<bytes>): bytes {
    if to == [] then [] else to[0] + [SEMICOLON] + Terminated(to[1..])
  }

  lemma {:induction false} ListedTokens(to: seq<bytes>)
    requires forall k :: 0 <= k < |to| ==> AT in to[k]
    ensures Listed(to) == Terminated(to)
  {
    if to != [] { ListedTokens(to[1..]); }
  }

  /** From a mail of Tx with any sender without a line feed and any body, the parser gets every
      recipient, in the order given. */
  lemma {:induction false} AddressListOfMail(sender: bytes, to: seq<bytes>, body: bytes)
    requires LF !in sender && forall k :: 0 <= k < |to| ==> IsToken(to[k])
    ensures AddressList(Mail(sender, to, body)) == Terminated(to)
  {
    hide Pieces, Field, Tokenized, Folded, Mail, UptoNul, Listed, IsDelim;
    FieldOfMail(sender, to, body);
    FoldedIsNulFree(to);
    WordAndBlanks();
    UptoNulOfNulFree(TO + Folded(to));
    TokensOfField(to);
    ListedTokens(to);
    ListedStep(TO[..2], to);
  }

  lemma {:induction false} TerminatedIsJoined(to: seq<bytes>)
    requires forall k :: 0 <= k < |to| ==> SEMICOLON !in to[k]
    ensures Pieces(Terminated(to), SEMICOLON) == to
  {
    hide PiecesFrom;
    if to == [] {
      NoPieces();
    } else {
      TerminatedIsJoined(to[1..]);
      PiecesOfLine(to[0], SEMICOLON, Terminated(to[1..]));
    }
  }

  lemma AddressIsToken(a: bytes)
    requires IsAddress(a)
    ensures IsToken(a)
  {
  }

  /** The recipients decoded from a mail are those it was sent to: every canonical list comes
      back as it is, and any other list of addresses as its canonical form. */
  lemma RecipientsRoundTrip(sender: bytes, to: seq<bytes>, body: bytes)
    requires LF !in sender && forall k :: 0 <= k < |to| ==> IsAddress(to[k])
    ensures var back := Decoded(AddressList(Mail(sender, to, body)));
      && StrictlySorted(back) && (forall x :: x in back <==> x in to)
      && (Canonical(to) ==> back == to)
  {
    hide AddressList, Mail, StrictlySorted, Pieces, IsAddress, IsToken, Counts, Address;
    forall k | 0 <= k < |to| ensures IsToken(to[k]) && SEMICOLON !in to[k] && Counts(to[k]) && Address(to[k]) == to[k] {
      AddressIsToken(to[k]);
      AddressIsItself(to[k]);
    }
    AddressListOfMail(sender, to, body);
    TerminatedIsJoined(to);
    DecodedIsListing(Terminated(to));
    var back := Decoded(Terminated(to));
    forall x ensures x in back <==> x in to {
      if x in to { var k :| 0 <= k < |to| && to[k] == x; assert x in AddressesIn(Terminated(to)); }
    }
    if Canonical(to) { SortedUnique(back, to); }
  }

  /** A mail is built, its recipients are parsed and decoded. */
  method SendAndParse(sender: bytes, to: seq<bytes>, body: bytes) returns (back: seq<bytes>)
    requires to != [] && LF !in sender && Canonical(to)
    ensures back == to
  {
    hide AddressList, Mail, Decoded, AddressesIn, StrictlySorted;
    RecipientsRoundTrip(sender, to, body);
    var mail := BuildMail(sender, to, body);
    var receips := ParseRFC822AddressList(mail);
    back := DecodeReceips(receips);
  }

  // ---------------------------------------------------------------- any mail

  const DELIM_TEXT := "~`!$%^&*-+=\\{}[]?<>()\"':,;|/ \t\r\n"

  const DELIM_CODES: bytes := [
    126, 96, 33, 36, 37, 94, 38, 42, 45, 43, 61, 92, 123, 125, 91, 93, 63, 60, 62, 40, 41, 34, 39, 58, 44, 59,
    124, 47, 32, 9, 13, 10]

  lemma DelimCodes()
    ensures Ascii(DELIM_TEXT) == DELIM_CODES
  {
  }

  lemma DelimsAreCodes(b: byte)
    ensures b in DELIMS <==> b in DELIM_CODES
  {
  }

  /** strtok cuts at these characters. */
  lemma DelimitersAre(b: byte)
    ensures IsDelim(b) <==> b in Ascii("~`!$%^&*-+=\\{}[]?<>()\"':,;|/ \t\r\n")
  {
    hide Ascii;
    DelimCodes();
    DelimsAreCodes(b);
  }

  /** The line without its first CR and what is behind it. */
  function BeforeCR(line: bytes): bytes {
    if line == [] || line[0] == 13 then [] else [line[0]] + BeforeCR(line[1..])
  }

  /** The first three characters are "to:" in either case. */
  predicate StartsTo(line: bytes) {
    |line| >= 3 && line[0] in {84, 116} && line[1] in {79, 111} && line[2] == 58
  }

  /** The line has a first character, and that is no white space. */
  predicate StartsSolid(line: bytes) {
    line != [] && line[0] !in {0, 9, 10, 11, 12, 13, 32}
  }

  function Glued(lines: seq<bytes>): bytes {
    if lines == [] then [] else BeforeCR(lines[0]) + Glued(lines[1..])
  }

  lemma {:induction false} CutIsBeforeCR(line: bytes)
    ensures UptoCR(line) == BeforeCR(line)
  {
    if line != [] && line[0] != CR { CutIsBeforeCR(line[1..]); }
  }

  lemma LineTests(line: bytes)
    ensures IsToLine(line) <==> StartsTo(line)
    ensures EndsField(line) <==> StartsSolid(line)
  {
  }

  /** In any mail without a line that starts with "to:" nothing is collected. */
  lemma {:induction false} NoToLine(lines: seq<bytes>)
    requires forall k :: 0 <= k < |lines| ==> !StartsTo(BeforeCR(lines[k]))
    ensures Field(lines, []) == []
  {
    hide UptoCR, BeforeCR, IsToLine, StartsTo;
    if lines != [] {
      CutIsBeforeCR(lines[0]);
      LineTests(BeforeCR(lines[0]));
      NoToLine(lines[1..]);
    }
  }

  /** In any other mail the first such line is collected with all lines behind it up to the first one
      that starts with a character other than white space. */
  lemma {:induction false} FirstToField(before: seq<bytes>, first: bytes, more: seq<bytes>, rest: seq<bytes>)
    requires forall k :: 0 <= k < |before| ==> !StartsTo(BeforeCR(before[k]))
    requires StartsTo(BeforeCR(first))
    requires forall k :: 0 <= k < |more| ==> !StartsSolid(BeforeCR(more[k]))
    requires rest != [] ==> StartsSolid(BeforeCR(rest[0]))
    ensures Field(before + ([first] + (more + rest)), []) == BeforeCR(first) + Glued(more)
  {
    hide UptoCR, BeforeCR, IsToLine, StartsTo, EndsField, StartsSolid;
    var lines := before + ([first] + (more + rest));
    if before == [] {
      assert lines == [first] + (more + rest) && lines[1..] == more + rest;
      CutIsBeforeCR(first);
      LineTests(BeforeCR(first));
      ToIsSomething(BeforeCR(first));
      MoreLines(more, rest, BeforeCR(first));
    } else {
      assert lines[0] == before[0] && lines[1..] == before[1..] + ([first] + (more + rest));
      CutIsBeforeCR(before[0]);
      LineTests(BeforeCR(before[0]));
      FirstToField(before[1..], first, more, rest);
    }
  }

  lemma ToIsSomething(line: bytes)
    requires StartsTo(line)
    ensures line != []
  {
  }

  lemma {:induction false} MoreLines(more: seq<bytes>, rest: seq<bytes>, receips: bytes)
    requires receips != []
    requires forall k :: 0 <= k < |more| ==> !StartsSolid(BeforeCR(more[k]))
    requires rest != [] ==> StartsSolid(BeforeCR(rest[0]))
    ensures Field(more + rest, receips) == receips + Glued(more)
  {
    hide UptoCR, BeforeCR, IsToLine, EndsField, StartsSolid;
    if more == [] {
      assert more + rest == rest && receips + [] == receips;
      if rest != [] {
        CutIsBeforeCR(rest[0]);
        LineTests(BeforeCR(rest[0]));
      }
    } else {
      assert (more + rest)[0] == more[0] && (more + rest)[1..] == more[1..] + rest;
      CutIsBeforeCR(more[0]);
      LineTests(BeforeCR(more[0]));
      MoreLines(more[1..], rest, receips + BeforeCR(more[0]));
      assert receips + BeforeCR(more[0]) + Glued(more[1..]) == receips + Glued(more);
    }
  }
}
