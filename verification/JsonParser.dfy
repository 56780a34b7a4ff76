/**
 The JSON grammar. The parser accepts as soon as the first value is complete, so the text after it is
 never looked at.
 */
module JsonParser {
  import opened Words
  import opened Values
  import opened JsonPrinter
  import opened JsonScanner

  datatype Parsed =
    | SyntaxError
    | Item(value: Value, rest: Bytes)

  datatype Document =
    | NoInput
    | Malformed
    | Result(value: Value)

  function ParseRoot(dv: DoubleValue, b: Bytes): Document {
    if NextToken(dv, b).token == TEnd then NoInput
    else
      match ParseVariant(dv, b)
      case SyntaxError => Malformed
      case Item(v, _) => Result(v)
  }

  function ParseVariant(dv: DoubleValue, b: Bytes): (r: Parsed)
    ensures r.Item? ==> |r.rest| < |b|
    decreases |b|, 1
  {
    var s := NextToken(dv, b);
    match s.token
    case TObjBegin =>
      if NextToken(dv, s.rest).token == TObjEnd then Item(Map([]), NextToken(dv, s.rest).rest)
      else ParseMember(dv, [], s.rest)
    case TArrBegin =>
      if NextToken(dv, s.rest).token == TArrEnd then Item(List([]), NextToken(dv, s.rest).rest)
      else ParseElement(dv, [], s.rest)
    case TString(str) => Item(Str(str), s.rest)
    case TVariant(v) => Item(v, s.rest)
    case _ => SyntaxError
  }

  /** A member, then the rest of the object. */
  function ParseMember(dv: DoubleValue, m: seq<Entry>, b: Bytes): (r: Parsed)
    ensures r.Item? ==> |r.rest| < |b|
    decreases |b|, 0
  {
    var key := NextToken(dv, b);
    if !key.token.TString? then SyntaxError
    else
      var sep := NextToken(dv, key.rest);
      if sep.token != TMemberSep then SyntaxError
      else
        match ParseVariant(dv, sep.rest)
        case SyntaxError => SyntaxError
        case Item(v, rest) => ParseMoreMembers(dv, Insert(m, key.token.text, v), rest)
  }

  function ParseMoreMembers(dv: DoubleValue, m: seq<Entry>, b: Bytes): (r: Parsed)
    ensures r.Item? ==> |r.rest| < |b|
    decreases |b|, 0
  {
    var s := NextToken(dv, b);
    match s.token
    case TObjEnd => Item(Map(m), s.rest)
    case TElementSep => ParseMember(dv, m, s.rest)
    case _ => SyntaxError
  }

  /** An element, then the rest of the array. */
  function ParseElement(dv: DoubleValue, list: seq<Value>, b: Bytes): (r: Parsed)
    ensures r.Item? ==> |r.rest| < |b|
    decreases |b|, 2
  {
    match ParseVariant(dv, b)
    case SyntaxError => SyntaxError
    case Item(v, rest) => ParseMoreElements(dv, list + [v], rest)
  }

  function ParseMoreElements(dv: DoubleValue, list: seq<Value>, b: Bytes): (r: Parsed)
    ensures r.Item? ==> |r.rest| < |b|
    decreases |b|, 0
  {
    var s := NextToken(dv, b);
    match s.token
    case TArrEnd => Item(List(list), s.rest)
    case TElementSep => ParseElement(dv, list, s.rest)
    case _ => SyntaxError
  }
}
