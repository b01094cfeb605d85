/** Reading the response headers the downloader depends on. */
module ResponseHeaders {
  import opened Wrappers
  import opened Decimal
  import Text

  /** A response header: absent, present but not visible ASCII, or text. */
  datatype Header = Missing | Opaque | Value(text: string)

  datatype ContentRange = ContentRange(start: nat, end: nat, total: nat)

  function ParseContentRange(h: Header): (r: Option<ContentRange>)
    ensures r.Some? ==> r.value.start <= r.value.end < r.value.total <= U64_MAX
  {
    if !h.Value? then None
    else match Text.StripPrefix(h.text, "bytes ")
      case None => None
      case Some(value) =>
        match Text.SplitOnce(value, '/')
        case None => None
        case Some(halves) =>
          match Text.SplitOnce(halves.0, '-')
          case None => None
          case Some(bounds) =>
            match (ParseUnsigned(bounds.0, U64_MAX), ParseUnsigned(bounds.1, U64_MAX), ParseUnsigned(halves.1, U64_MAX))
            case (Some(start), Some(end), Some(total)) =>
              if start > end || end >= total then None else Some(ContentRange(start, end, total))
            case _ => None
  }

  function ContentRangeText(cr: ContentRange): string {
    "bytes " + ((Render(cr.start) + ['-'] + Render(cr.end)) + ['/'] + Render(cr.total))
  }

  /** A header in the standard form is accepted exactly when it names a non-empty range inside the object. */
  lemma ContentRangeRoundTrip(cr: ContentRange)
    requires cr.start <= U64_MAX && cr.end <= U64_MAX && cr.total <= U64_MAX
    ensures ParseContentRange(Value(ContentRangeText(cr)))
         == if cr.start <= cr.end < cr.total then Some(cr) else None
  {
    var range := Render(cr.start) + ['-'] + Render(cr.end);
    var value := range + ['/'] + Render(cr.total);
    assert Text.StripPrefix("bytes " + value, "bytes ") == Some(value);
    DigitsHave(Render(cr.start), '/');
    DigitsHave(Render(cr.start), '-');
    DigitsHave(Render(cr.end), '/');
    Text.SplitOnceAt(range, '/', Render(cr.total));
    Text.SplitOnceAt(Render(cr.start), '-', Render(cr.end));
    ParseOfRender(cr.start, U64_MAX);
    ParseOfRender(cr.end, U64_MAX);
    ParseOfRender(cr.total, U64_MAX);
  }

  lemma DigitsHave(s: string, c: char)
    requires AllDigits(s) && !IsDigit(c)
    ensures c !in s
  {
  }

  /** A Content-Length header as the attempt sees it. */
  datatype Length = Absent | Invalid | Declared(bytes: nat)

  function ParseContentLength(h: Header): (r: Length)
    ensures r.Declared? ==> r.bytes <= U64_MAX
  {
    match h
    case Missing => Absent
    case Opaque => Invalid
    case Value(text) =>
      match ParseUnsigned(text, U64_MAX)
      case None => Invalid
      case Some(n) => Declared(n)
  }

  /** Only a missing header leaves the length open; one that is not text, or not a number, is invalid. */
  lemma LengthExactly(h: Header)
    ensures ParseContentLength(h) == Absent <==> h.Missing?
    ensures h.Opaque? ==> ParseContentLength(h) == Invalid
    ensures h.Value? ==> (ParseContentLength(h) == Invalid <==> ParseUnsigned(h.text, U64_MAX) == None)
  {
    hide ParseUnsigned;
  }

  /** An announced length is read back exactly, and only digits with one optional sign are a length. */
  lemma ContentLengthRoundTrip(n: nat)
    requires n <= U64_MAX
    ensures ParseContentLength(Value(Render(n))) == Declared(n)
    ensures ParseContentLength(Value("+" + Render(n))) == Declared(n)
    ensures ParseContentLength(Value("-" + Render(n))) == Invalid
  {
    hide Render, ParseUnsigned;
    ParseOfRender(n, U64_MAX);
    PlusParses(Render(n), n);
    MinusFails(Render(n));
  }

  lemma PlusParses(digits: string, n: nat)
    requires digits != [] && AllDigits(digits) && ParseUnsigned(digits, U64_MAX) == Some(n)
    ensures ParseUnsigned("+" + digits, U64_MAX) == Some(n)
  {
    hide Decimal.Value;
    assert ("+" + digits)[1..] == digits;
    assert IsDigit(digits[0]);
  }

  lemma MinusFails(digits: string)
    ensures ParseUnsigned("-" + digits, U64_MAX) == None
  {
    hide Decimal.Value;
    assert !IsDigit(("-" + digits)[0]);
  }
}
