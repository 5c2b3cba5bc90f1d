/** The parser objects (config/src/yaml.cpp, config/src/json.cpp), which readers see only through a published
    snapshot. */
module ConfigParser {
  import opened ConfigPath
  import opened ConfigIndex
  import opened ConfigWalk

  datatype Snapshot = Snapshot(doc: Document, index: map<string, int>, tokens: map<string, seq<string>>)

  class Parser {
    const format: Format
    var published: Option<Snapshot>

    ghost predicate Valid()
      reads this
    {
      published.Some? ==>
        Indexes(published.value.doc, format, published.value.index) &&
        Tokenized(published.value.index, published.value.tokens)
    }

    constructor (format: Format)
      ensures Valid() && published == None && this.format == format
    {
      this.format := format;
      published := None;
    }

    /** `loadFromStringInternal` from the point where the text has been parsed, None being a syntax error:
        a document is published when its index is complete, and otherwise nothing changes. */
    method Load(parsed: Option<Document>, ghost rank: seq<nat>) returns (code: Code)
      requires Valid() && (parsed.Some? ==> Ranked(parsed.value, format, rank))
      modifies this
      ensures Valid()
      ensures code == Good ==> parsed.Some? && published.Some? && published.value.doc == parsed.value
      ensures code != Good ==> published == old(published)
      ensures code == Good <==> parsed.Some? && (format.Json? ==> parsed.value.Has(1)) &&
                                (format.Yaml? ==> forall p :: !Refused(parsed.value, format, p))
    {
      hide Ranked, Indexes, Tokenized, Refused;
      if parsed.None? { return ParseError; }
      var index, tokens;
      code, index, tokens := BuildMap(parsed.value, format, rank);
      if code != Good { return; }
      published := Some(Snapshot(parsed.value, index, tokens));
    }

    /** `reset`. */
    method Reset()
      modifies this
      ensures Valid() && published == None
    {
      published := None;
    }

    /** `getNode`: the node of the first position with the path, and against iterated `at`: what it finds, exactly
        if the node is entered and not shadowed, and in any case for plain and distinct keys. */
    method GetNode(path: string) returns (id: Option<int>)
      requires Valid()
      ensures published.None? ==> id == None
      ensures published.Some? ==> Answers(published.value.doc, format, path, id)
      ensures published.Some? ==> var doc := published.value.doc;
              forall p | Path(p) == path && Walk(doc, p, false).Some? ::
                id == Walk(doc, p, false) <==> Entered(doc, format, p) && !Shadowed(doc, format, p)
      ensures published.Some? ==> var doc := published.value.doc;
              PlainKeys(doc) && DistinctKeys(doc) ==>
                forall p | Plain(p) && Path(p) == path :: id == Walk(doc, p, false)
    {
      hide PlainKeys, DistinctKeys, Walk, Path, Tokenized, Plain, Answers, Entered, Shadowed;
      if published.None? || path !in published.value.index {
        id := None;
      } else {
        id := Some(published.value.index[path]);
      }
      if published.Some? {
        ghost var doc := published.value.doc;
        assert id == Looked(published.value.index, path);
        forall p | Path(p) == path && Walk(doc, p, false).Some?
          ensures id == Walk(doc, p, false) <==> Entered(doc, format, p) && !Shadowed(doc, format, p)
        {
          LookupIsWalk(doc, format, p, id);
        }
        forall p | PlainKeys(doc) && DistinctKeys(doc) && Plain(p) && Path(p) == path
          ensures id == Walk(doc, p, false)
        {
          IndexIsWalk(doc, format, p, id);
        }
      }
    }
  }
}
