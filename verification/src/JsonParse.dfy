/** What Reader::parse computes, as functions of the document. The reader of
    JsonReader is proved against these functions; the theorems about parsing are
    about them. */
module JsonParse {
  import opened Bytes
  import opened JsonValue
  import opened JsonLexer
  import opened JsonDecode

  const STACK_LIMIT := 1000

  /** A document, the features of the reader, and which texts `istream >> double`
      accepts (floating point input is not modelled). */
  datatype Input = Input(doc: bytes, allowComments: bool, strictRoot: bool, isDouble: bytes -> bool)

  /** Threw: the exception "Exceeded stackLimit in readValue()". */
  datatype Status = Good | Bad | Threw

  /** The reader's position, error list and depth counter. */
  datatype State = State(pos: nat, errors: seq<ErrorInfo>, depth: int)

  /** The outcome of reading into a value; after an exception the value is not described. */
  datatype Result = Result(status: Status, st: State, v: Value)

  function AddError(st: State, kind: ErrorKind, token: Token, extra: Maybe): State {
    st.(errors := st.errors + [ErrorInfo(kind, token, extra)])
  }

  /** addErrorAndRecover. */
  function FailAndRecover(doc: bytes, st: State, kind: ErrorKind, token: Token, until: TokenType): (r: State)
    requires st.pos <= |doc|
    ensures st.pos <= r.pos <= |doc|
  {
    AddError(st.(pos := Recover(doc, st.pos, until)), kind, token, Nowhere)
  }

  /** skipCommentTokens. */
  function FirstToken(inp: Input, p: nat): (t: Token)
    requires p <= |inp.doc|
    ensures p <= t.start <= t.end <= |inp.doc|
    ensures t.start < |inp.doc| ==> t.start < t.end
    ensures t.start == |inp.doc| ==> t.kind == EndOfStream
    ensures t.kind == StringToken ==> t.start + 2 <= t.end
  {
    if inp.allowComments then SkipComments(inp.doc, p) else ReadToken(inp.doc, p)
  }

  /** readValue into a value that holds `cur` so far. */
  function ReadValue(inp: Input, st: State, cur: Value): (r: Result)
    requires st.pos <= |inp.doc|
    ensures st.pos <= r.st.pos <= |inp.doc|
    decreases |inp.doc| - st.pos, 3
  {
    if st.depth >= STACK_LIMIT then Result(Threw, st, cur)
    else
      var token := FirstToken(inp, st.pos);
      var s := st.(pos := token.end, depth := st.depth + 1);
      if token.kind == ObjectBegin then Leave(ReadObject(inp, s, [], []))
      else if token.kind == ArrayBegin then Leave(ReadArray(inp, s))
      else ReadScalar(inp, s, token, cur)
  }

  /** The part of readValue for a token that starts no container. */
  function ReadScalar(inp: Input, s: State, token: Token, cur: Value): (r: Result)
    requires token.start <= token.end <= |inp.doc|
    requires token.kind == StringToken ==> token.start + 2 <= token.end
    ensures r.st.pos == s.pos && r.status != Threw
  {
    match token.kind
    case NumberToken =>
      var text := inp.doc[token.start..token.end];
      var number := DecodeNumber(text);
      if number.Integer? then Leave(Result(Good, s, number.v))
      else if inp.isDouble(text) then Leave(Result(Good, s, Real(text)))
      else Leave(Result(Bad, AddError(s, NotANumber, token, Nowhere), cur))
    case StringToken =>
      var text := DecodeString(inp.doc, token.start, token.end);
      if text.Text? then Leave(Result(Good, s, Str(text.s)))
      else Leave(Result(Bad, AddError(s, text.kind, token, Somewhere(text.pos)), cur))
    case TrueToken => Leave(Result(Good, s, Bool(true)))
    case FalseToken => Leave(Result(Good, s, Bool(false)))
    case NullToken => Leave(Result(Good, s, Null))
    case _ => Result(Bad, AddError(s, ValueExpected, token, Nowhere), cur)
  }

  /** The way out of readValue gives the depth back, unless an exception is under way. */
  function Leave(r: Result): (s: Result)
    ensures s.st.pos == r.st.pos && s.st.errors == r.st.errors && s.status == r.status && s.v == r.v
  {
    if r.status == Threw then r else r.(st := r.st.(depth := r.st.depth - 1))
  }

  /** One turn of the loop of readObject, with the name read last and the members so far. */
  function ReadObject(inp: Input, st: State, name: bytes, ms: seq<Member>): (r: Result)
    requires st.pos <= |inp.doc|
    ensures st.pos <= r.st.pos <= |inp.doc|
    decreases |inp.doc| - st.pos, 2
  {
    var doc := inp.doc;
    var tokenName := SkipComments(doc, st.pos);
    var s := st.(pos := tokenName.end);
    if tokenName.kind == ObjectEnd && name == [] then Result(Good, s, Object(ms))
    else if tokenName.kind != StringToken then
      Result(Bad, FailAndRecover(doc, s, MissingBraceOrName, tokenName, ObjectEnd), Object(ms))
    else
      var text := DecodeString(doc, tokenName.start, tokenName.end);
      if text.BadText? then
        var t := AddError(s, text.kind, tokenName, Somewhere(text.pos));
        Result(Bad, t.(pos := Recover(doc, t.pos, ObjectEnd)), Object(ms))
      else ReadMember(inp, s, text.s, ms)
  }

  /** The rest of the turn of readObject once the member's name is known. */
  function ReadMember(inp: Input, st: State, name: bytes, ms: seq<Member>): (r: Result)
    requires st.pos <= |inp.doc|
    ensures st.pos <= r.st.pos <= |inp.doc|
    decreases |inp.doc| - st.pos, 5
  {
    var doc := inp.doc;
    var colon := ReadToken(doc, st.pos);
    var s := st.(pos := colon.end);
    if colon.kind != MemberSeparator then
      Result(Bad, FailAndRecover(doc, s, MissingColon, colon, ObjectEnd), Object(ms))
    else
      var child := ReadValue(inp, s, SlotValue(Find(ms, name)));
      var ms' := Store(ms, name, child.v);
      if child.status == Threw then Result(Threw, child.st, Object(ms'))
      else if child.status == Bad then
        Result(Bad, child.st.(pos := Recover(doc, child.st.pos, ObjectEnd)), Object(ms'))
      else
        var comma := ReadToken(doc, child.st.pos);
        var t := child.st.(pos := comma.end);
        if comma.kind !in {ObjectEnd, ArraySeparator, CommentToken} then
          Result(Bad, FailAndRecover(doc, t, MissingCommaOrBrace, comma, ObjectEnd), Object(ms'))
        else
          var next := if comma.kind == CommentToken then SkipComments(doc, comma.end) else comma;
          var u := t.(pos := next.end);
          if next.kind == ObjectEnd then Result(Good, u, Object(ms'))
          else ReadObject(inp, u, name, ms')
  }

  /** readArray. */
  function ReadArray(inp: Input, st: State): (r: Result)
    requires st.pos <= |inp.doc|
    ensures st.pos <= r.st.pos <= |inp.doc|
    decreases |inp.doc| - st.pos, 5
  {
    var doc := inp.doc;
    var p := SkipSpaces(doc, st.pos);
    if ByteAt(doc, p) == RBRACKET then
      Result(Good, st.(pos := ReadToken(doc, p).end), Array([]))
    else ReadItems(inp, st.(pos := p), [])
  }

  /** One turn of the loop of readArray, with the items so far. */
  function ReadItems(inp: Input, st: State, slots: seq<Slot>): (r: Result)
    requires st.pos <= |inp.doc|
    ensures st.pos <= r.st.pos <= |inp.doc|
    decreases |inp.doc| - st.pos, 4
  {
    var doc := inp.doc;
    var child := ReadValue(inp, st, Null);
    var slots' := slots + [Item(child.v)];
    if child.status == Threw then Result(Threw, child.st, Array(slots'))
    else if child.status == Bad then
      Result(Bad, child.st.(pos := Recover(doc, child.st.pos, ArrayEnd)), Array(slots'))
    else
      var token := SkipComments(doc, child.st.pos);
      var s := child.st.(pos := token.end);
      if token.kind != ArraySeparator && token.kind != ArrayEnd then
        Result(Bad, FailAndRecover(doc, s, MissingCommaOrBracket, token, ArrayEnd), Array(slots'))
      else if token.kind == ArrayEnd then Result(Good, s, Array(slots'))
      else ReadItems(inp, s, slots')
  }

  /** Reader::parse into a root that holds `cur`. */
  function Parse(inp: Input, cur: Value): Result {
    var r := ReadValue(inp, State(0, [], 0), cur);
    if r.status == Threw then r
    else
      var token := FirstToken(inp, r.st.pos);
      var s := r.st.(pos := token.end);
      if inp.strictRoot && !r.v.Array? && !r.v.Object? then
        var whole := Token(ErrorToken, 0, |inp.doc|);
        Result(Bad, AddError(s, RootMustBeContainer, whole, Nowhere), r.v)
      else Result(r.status, s, r.v)
  }

  // ---------------------------------------------------------------- every document

  /** What a call of readValue, readObject or readArray keeps, whatever the text: errors are
      only added, success adds none and gives the depth back, failure adds exactly one, and the
      exception adds none. */
  ghost predicate Reports(st: State, r: Result) {
    && st.errors <= r.st.errors
    && (r.status == Good ==> r.st.errors == st.errors && r.st.depth == st.depth)
    && (r.status == Bad ==> |r.st.errors| == |st.errors| + 1 && st.depth <= r.st.depth)
    && (r.status == Threw ==> r.st.errors == st.errors)
  }

  lemma ReadScalarReports(inp: Input, s: State, token: Token, cur: Value)
    requires token.start <= token.end <= |inp.doc|
    requires token.kind == StringToken ==> token.start + 2 <= token.end
    ensures Reports(s.(depth := s.depth - 1), ReadScalar(inp, s, token, cur))
  {
  }

  lemma LeaveReports(st: State, s: State, r: Result)
    requires s.errors == st.errors && s.depth == st.depth + 1 && Reports(s, r)
    ensures Reports(st, Leave(r))
  {
  }

  lemma {:induction false} ReadValueReports(inp: Input, st: State, cur: Value)
    requires st.pos <= |inp.doc|
    ensures Reports(st, ReadValue(inp, st, cur))
    decreases |inp.doc| - st.pos, 3
  {
    hide FirstToken, ReadObject, ReadArray, ReadScalar, Leave;
    if st.depth < STACK_LIMIT {
      var token := FirstToken(inp, st.pos);
      var s := st.(pos := token.end, depth := st.depth + 1);
      if token.kind == ObjectBegin {
        ReadObjectReports(inp, s, [], []);
        LeaveReports(st, s, ReadObject(inp, s, [], []));
      } else if token.kind == ArrayBegin {
        ReadArrayReports(inp, s);
        LeaveReports(st, s, ReadArray(inp, s));
      } else {
        ReadScalarReports(inp, s, token, cur);
      }
    } else {
      ThrewReports(st, cur);
    }
  }

  lemma ThrewReports(st: State, cur: Value)
    ensures Reports(st, Result(Threw, st, cur))
  {
  }

  lemma {:induction false} ReadObjectReports(inp: Input, st: State, name: bytes, ms: seq<Member>)
    requires st.pos <= |inp.doc|
    ensures Reports(st, ReadObject(inp, st, name, ms))
    decreases |inp.doc| - st.pos, 2
  {
    hide ReadMember, SkipComments, Recover, DecodeString;
    var tokenName := SkipComments(inp.doc, st.pos);
    if tokenName.kind == StringToken {
      var text := DecodeString(inp.doc, tokenName.start, tokenName.end);
      if text.Text? { ReadMemberReports(inp, st.(pos := tokenName.end), text.s, ms); }
    }
  }

  lemma {:induction false} ReadMemberReports(inp: Input, st: State, name: bytes, ms: seq<Member>)
    requires st.pos <= |inp.doc|
    ensures Reports(st, ReadMember(inp, st, name, ms))
    decreases |inp.doc| - st.pos, 5
  {
    hide ReadValue, ReadObject, ReadToken, SkipComments, Recover, Store, Find, SlotValue;
    var doc := inp.doc;
    var colon := ReadToken(doc, st.pos);
    if colon.kind == MemberSeparator {
      var s := st.(pos := colon.end);
      var child := ReadValue(inp, s, SlotValue(Find(ms, name)));
      ReadValueReports(inp, s, SlotValue(Find(ms, name)));
      var comma := ReadToken(doc, child.st.pos);
      if child.status == Good && comma.kind in {ObjectEnd, ArraySeparator, CommentToken} {
        var next := if comma.kind == CommentToken then SkipComments(doc, comma.end) else comma;
        if next.kind != ObjectEnd {
          ReadObjectReports(inp, child.st.(pos := next.end), name, Store(ms, name, child.v));
        }
      }
    }
  }

  lemma {:induction false} ReadArrayReports(inp: Input, st: State)
    requires st.pos <= |inp.doc|
    ensures Reports(st, ReadArray(inp, st))
    decreases |inp.doc| - st.pos, 5
  {
    var p := SkipSpaces(inp.doc, st.pos);
    if ByteAt(inp.doc, p) != RBRACKET { ReadItemsReports(inp, st.(pos := p), []); }
  }

  lemma {:induction false} ReadItemsReports(inp: Input, st: State, slots: seq<Slot>)
    requires st.pos <= |inp.doc|
    ensures Reports(st, ReadItems(inp, st, slots))
    decreases |inp.doc| - st.pos, 4
  {
    hide ReadValue, SkipComments, Recover;
    ReadValueReports(inp, st, Null);
    var child := ReadValue(inp, st, Null);
    if child.status == Good {
      var token := SkipComments(inp.doc, child.st.pos);
      if token.kind == ArraySeparator {
        ReadItemsReports(inp, child.st.(pos := token.end), slots + [Item(child.v)]);
      }
    }
  }

  /** Whatever the document and the features: unless the depth limit stops it, parse
      returns true exactly when the error list is empty; a failure is reported once, and
      at most once more when the root is no container and has to be. The exception finds
      the list empty. */
  lemma ParseReports(inp: Input, cur: Value)
    ensures var r := Parse(inp, cur);
      && r.st.pos <= |inp.doc|
      && (r.status == Good ==> r.st.errors == [])
      && (r.status == Bad ==> r.st.errors != [])
      && (r.status == Bad && !inp.strictRoot ==> |r.st.errors| == 1)
      && (r.status == Bad ==> |r.st.errors| <= 2)
      && (r.status == Threw ==> r.st.errors == [])
  {
    hide ReadValue, FirstToken;
    ReadValueReports(inp, State(0, [], 0), cur);
  }
}
