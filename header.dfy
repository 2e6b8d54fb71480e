/**
 * Datasets and tag lookups.
 *
 * A dataset is what the DICOM parsing library yields for one object: values
 * keyed by tag. A missing element is a normal condition and reads as the
 * empty string. The file system the database reads headers from appears as
 * a map from file name to the dataset parsed from that file; a name that is
 * absent names a file that does not exist or cannot be read.
 */
module Header {
  import opened Wrappers
  import opened Tags

  type Dataset = map<Tag, string>

  /** The readable DICOM files, by name. */
  type Files = map<string, Dataset>

  /** The value of element `t`, or "" when the dataset lacks it. */
  function ElementValue(ds: Dataset, t: Tag): string {
    if t in ds then ds[t] else ""
  }

  /** The parsed contents of `fileName`; nothing when the file cannot be read. */
  function ReadFile(files: Files, fileName: string): Dataset {
    if fileName != "" && fileName in files then files[fileName] else map[]
  }

  /** headerKeys: the keys of every element of the loaded header. */
  function HeaderKeys(header: Dataset): set<string> {
    set t | t in header :: FormatTag(t)
  }

  /** headerValue: the element a key names, read from the loaded header. */
  function HeaderValue(header: Dataset, key: string): string {
    match TagToGroupElement(key)
    case Some(t) => ElementValue(header, t)
    case None => ""
  }

  /** fileValue with explicit group and element; "" when the file or the element is missing. */
  function FileElementValue(files: Files, fileName: string, group: uint16, element: uint16): string {
    ElementValue(ReadFile(files, fileName), Tag(group, element))
  }

  /** fileValue with a "GGGG,EEEE" key; "" when the key does not parse. */
  function FileValue(files: Files, fileName: string, key: string): string {
    match TagToGroupElement(key)
    case Some(t) => FileElementValue(files, fileName, t.group, t.element)
    case None => ""
  }

  /**
   * headerKeys lists exactly the loaded tags, each once, each as a
   * zero-filled "GGGG,EEEE" key, and headerValue reads every listed key
   * back from the header.
   */
  lemma HeaderKeysExact(header: Dataset)
    ensures forall t :: t in header <==> FormatTag(t) in HeaderKeys(header)
    ensures |HeaderKeys(header)| == |header|
    ensures forall key | key in HeaderKeys(header) ::
      IsCanonicalKey(key) && TagToGroupElement(key).Some? && TagToGroupElement(key).value in header
      && HeaderValue(header, key) == header[TagToGroupElement(key).value]
  {
    var keys := HeaderKeys(header);
    forall t ensures t in header <==> FormatTag(t) in keys {
      if FormatTag(t) in keys {
        var t' :| t' in header && FormatTag(t') == FormatTag(t);
        FormatTagInjective(t, t');
      }
    }
    forall key | key in keys
      ensures IsCanonicalKey(key) && TagToGroupElement(key).Some? && TagToGroupElement(key).value in header
      && HeaderValue(header, key) == header[TagToGroupElement(key).value]
    {
      var t :| t in header && FormatTag(t) == key;
      TagRoundTrip(t);
    }
    KeysCardinality(header);
  }

  /** Formatting is injective, so there are as many keys as tags. */
  lemma {:induction false} KeysCardinality(header: Dataset)
    ensures |HeaderKeys(header)| == |header|
    decreases |header|
  {
    if header != map[] {
      var t :| t in header;
      var rest := header - {t};
      KeysCardinality(rest);
      assert HeaderKeys(header) == HeaderKeys(rest) + {FormatTag(t)} by {
        forall key | key in HeaderKeys(header) ensures key in HeaderKeys(rest) + {FormatTag(t)} {
          var t' :| t' in header && FormatTag(t') == key;
          if t' != t { assert t' in rest; }
        }
      }
      assert FormatTag(t) !in HeaderKeys(rest) by {
        if FormatTag(t) in HeaderKeys(rest) {
          var t' :| t' in rest && FormatTag(t') == FormatTag(t);
          FormatTagInjective(t, t');
        }
      }
    }
  }

  /** headerValue of a tag's key is that element's value, or "" when the header lacks it. */
  lemma HeaderValueOfTag(header: Dataset, t: Tag)
    ensures HeaderValue(header, FormatTag(t)) == (if t in header then header[t] else "")
  {
    TagRoundTrip(t);
  }

  /** A key that is not a "GGGG,EEEE" pair of 16-bit hex numbers reads as "". */
  lemma MalformedKeyReadsEmpty(header: Dataset, files: Files, fileName: string, key: string)
    requires TagToGroupElement(key).None?
    ensures HeaderValue(header, key) == "" && FileValue(files, fileName, key) == ""
  {
  }

  /**
   * The two fileValue overloads agree: the key of (group, element) reads the
   * same value as the pair itself, a present element reads its value, and a
   * missing file or element reads "".
   */
  lemma FileValueOverloadsAgree(files: Files, fileName: string, group: uint16, element: uint16)
    ensures FileValue(files, fileName, FormatTag(Tag(group, element))) == FileElementValue(files, fileName, group, element)
    ensures FileElementValue(files, fileName, group, element) != "" ==>
      fileName in files && Tag(group, element) in files[fileName]
      && FileElementValue(files, fileName, group, element) == files[fileName][Tag(group, element)]
    ensures fileName != "" && fileName in files && Tag(group, element) in files[fileName] ==>
      FileElementValue(files, fileName, group, element) == files[fileName][Tag(group, element)]
  {
    TagRoundTrip(Tag(group, element));
  }
}
