/**
 * The XML front end of the tree importer: StAX event codes mapped onto the
 * four token kinds of the tree reader, a reader that walks a document's
 * events with a cursor, and the capture of reader-creation failures.
 *
 * The StAX stream reader itself is not modelled: a document is given as the
 * finite sequence of events it produces.
 */
module XmlImporter {
  import opened Wrappers
  import opened TreeReader

  // Event type codes of javax.xml.stream.XMLStreamConstants.
  const START_ELEMENT: int := 1
  const END_ELEMENT: int := 2
  const PROCESSING_INSTRUCTION: int := 3
  const CHARACTERS: int := 4
  const COMMENT: int := 5
  const SPACE: int := 6
  const START_DOCUMENT: int := 7
  const END_DOCUMENT: int := 8
  const ENTITY_REFERENCE: int := 9
  const ATTRIBUTE: int := 10
  const DTD: int := 11
  const CDATA: int := 12
  const NAMESPACE: int := 13
  const NOTATION_DECLARATION: int := 14

  /** The tree reader's token kinds, without the data the reader reports alongside. */
  datatype TokenKind = StartEntityKind | EndEntityKind | ValueKind | IgnorableKind

  function KindOf(tok: Token): TokenKind {
    match tok
    case StartEntity(_, _, _) => StartEntityKind
    case EndEntity(_, _) => EndEntityKind
    case Value(_, _) => ValueKind
    case Ignorable => IgnorableKind
  }

  /**
   * The token kind of a StAX event code: elements start and end entities,
   * character data and ignorable whitespace are values, and every other
   * code, known or not, is ignorable.
   */
  function MapToToken(code: int): (k: TokenKind)
    ensures k == StartEntityKind <==> code == START_ELEMENT
    ensures k == EndEntityKind <==> code == END_ELEMENT
    ensures k == ValueKind <==> code == CHARACTERS || code == SPACE
    ensures k == IgnorableKind <==> code !in {START_ELEMENT, END_ELEMENT, CHARACTERS, SPACE}
  {
    if code == START_ELEMENT then StartEntityKind
    else if code == END_ELEMENT then EndEntityKind
    else if code == CHARACTERS then ValueKind
    else if code == START_DOCUMENT then IgnorableKind
    else if code == END_DOCUMENT then IgnorableKind
    else if code == SPACE then ValueKind
    else if code == PROCESSING_INSTRUCTION then IgnorableKind
    else if code == NOTATION_DECLARATION then IgnorableKind
    else if code == NAMESPACE then IgnorableKind
    else if code == ENTITY_REFERENCE then IgnorableKind
    else if code == DTD then IgnorableKind
    else if code == COMMENT then IgnorableKind
    else if code == CDATA then IgnorableKind
    else if code == ATTRIBUTE then IgnorableKind
    else IgnorableKind
  }

  /**
   * One event of the StAX reader with what its accessors report: the prefix
   * (null and empty both as ""), the local name, the attributes and the text.
   */
  datatype Event = Event(code: int, prefix: string, localName: string, attributes: seq<Attribute>, text: string)

  /** Whether the reader's getLocalName answers for this event rather than failing. */
  predicate HasLocalName(ev: Event) {
    ev.code == START_ELEMENT || ev.code == END_ELEMENT || ev.code == ENTITY_REFERENCE
  }

  /**
   * The tree-reader token an event stands for: character data carries no
   * field name, because the reader reports no local name for it.
   */
  function ToToken(ev: Event): (tok: Token)
    ensures KindOf(tok) == MapToToken(ev.code)
    ensures tok.StartEntity? ==> tok == StartEntity(ev.prefix, ev.localName, ev.attributes)
    ensures tok.EndEntity? ==> tok == EndEntity(ev.prefix, ev.localName)
    ensures tok.Value? ==> tok == Value(None, ev.text) && !HasLocalName(ev)
  {
    match MapToToken(ev.code)
    case StartEntityKind => StartEntity(ev.prefix, ev.localName, ev.attributes)
    case EndEntityKind => EndEntity(ev.prefix, ev.localName)
    case ValueKind => Value(None, ev.text)
    case IgnorableKind => Ignorable
  }

  /** The token stream the tree importer walks for a document. */
  function ToTokens(events: seq<Event>): (t: seq<Token>)
    ensures |t| == |events| && forall i :: 0 <= i < |t| ==> t[i] == ToToken(events[i])
  {
    if events == [] then [] else ToTokens(events[..|events| - 1]) + [ToToken(events[|events| - 1])]
  }

  /** The tree reader over a document's events; the cursor starts on the first event. */
  class XmlParser {
    const events: seq<Event>
    var cursor: nat

    ghost predicate Valid()
      reads this
    {
      cursor < |events|
    }

    constructor (events: seq<Event>)
      requires |events| > 0
      ensures this.events == events && cursor == 0 && Valid()
    {
      this.events := events;
      cursor := 0;
    }

    /** Whether a further event exists. */
    predicate HasNext()
      requires Valid()
      reads this
    {
      cursor + 1 < |events|
    }

    /** The token kind of the present event. */
    function Current(): (k: TokenKind)
      requires Valid()
      reads this
      ensures k == KindOf(ToToken(events[cursor]))
    {
      MapToToken(events[cursor].code)
    }

    /**
     * Moves to the next event and returns its token kind, which is then what
     * `Current` reports; with no further event it fails and stays put.
     */
    method Next() returns (r: Result<TokenKind, string>)
      requires Valid()
      modifies this
      ensures Valid()
      ensures old(HasNext()) ==> cursor == old(cursor) + 1 && r.Success? && r.value == Current()
      ensures !old(HasNext()) ==> cursor == old(cursor) && r == Failure("End of XML stream")
    {
      if !HasNext() {
        return Failure("End of XML stream");
      }
      cursor := cursor + 1;
      r := Success(MapToToken(events[cursor].code));
    }

    /** The local name of the present event, or None where the reader has none to report. */
    function GetFieldName(): (n: Option<string>)
      requires Valid()
      reads this
      ensures n.Some? <==> HasLocalName(events[cursor])
      ensures n.Some? ==> n.value == events[cursor].localName
      ensures Current() == StartEntityKind || Current() == EndEntityKind ==> n.Some?
      ensures Current() == ValueKind ==> n == None
    {
      if HasLocalName(events[cursor]) then Some(events[cursor].localName) else None
    }
  }

  /**
   * Opens a document for the tree importer.  When the reader cannot be
   * created the failure is appended to `exceptions` and no reader is handed
   * on; otherwise the exceptions are untouched and a fresh reader stands on
   * the document's first event.
   */
  method ParseOneFile(document: Result<seq<Event>, string>, exceptions: seq<string>)
    returns (reader: Option<XmlParser>, exceptions': seq<string>)
    requires document.Success? ==> |document.value| > 0
    ensures document.Failure? ==> reader == None && exceptions' == exceptions + [document.error]
    ensures document.Success? ==>
      exceptions' == exceptions && reader.Some? && fresh(reader.value) &&
      reader.value.events == document.value && reader.value.cursor == 0
  {
    if document.Failure? {
      return None, exceptions + [document.error];
    }
    var p := new XmlParser(document.value);
    return Some(p), exceptions;
  }
}
