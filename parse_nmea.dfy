/**
 * `NMEA::extractSentenceData`: cut an NMEA 0183 sentence of the shape
 * `$GP` + format + `,` + comma-separated data + `*hh` into its three-letter
 * format tag and its ordered list of data fields.
 */
module NMEA {
  import opened Wrappers
  import opened StdString
  import opened Fields

  /** Length of the talker prefix `$GP`. */
  const PrefixLen: nat := 3
  /** Length of the checksum suffix `*hh`. */
  const SuffixLen: nat := 3
  /** Length of the sentence format tag, such as `GLL`. */
  const FormatLen: nat := 3
  /** The character that separates data fields. */
  const FieldDelimiter: char := ','

  /** The shortest sentence the extractor handles without throwing: `$GP` + format + one separator + `*hh`. */
  const MinSentenceLen: nat := PrefixLen + FormatLen + 1 + SuffixLen

  /** The extractor's result: the format tag and the data fields, in order. */
  datatype SentenceData = SentenceData(format: string, fields: seq<string>)

  /** The `erase` call that raises `std::out_of_range` on a too-short sentence. */
  datatype EraseSite =
    | FormatErase  // cutting the format tag out of what follows the prefix
    | SuffixErase  // cutting the checksum suffix off the data

  /** The part of a sentence that is split into fields: after the separator that follows the tag, before `*hh`. */
  function DataString(sen: string): (data: string)
    requires |sen| >= MinSentenceLen
    ensures |data| == |sen| - MinSentenceLen
    ensures sen == sen[..PrefixLen + FormatLen + 1] + data + sen[|sen| - SuffixLen..]
  {
    sen[PrefixLen + FormatLen + 1..|sen| - SuffixLen]
  }

  /** What the extractor returns, as slices and a split: the specification of `ExtractSentenceData`. */
  function SentenceSpec(sen: string): (r: SentenceData)
    requires |sen| >= MinSentenceLen
    ensures |r.format| == FormatLen && r.fields != []
  {
    SentenceData(sen[PrefixLen..PrefixLen + FormatLen], Split(DataString(sen), FieldDelimiter))
  }

  /**
   * One `getline` with delimiter `d` on a string stream whose read position
   * is `pos`: read up to the next `d` or the end. `next` is the new read
   * position (just past the `d`, which is consumed but not stored), and
   * `eof` says that the end was reached without a `d`, which is what makes
   * the stream stop being `good()`.
   */
  method GetLine(buf: string, pos: nat, d: char) returns (substr: string, next: nat, eof: bool)
    requires pos <= |buf|
    ensures pos <= next <= |buf|
    ensures d !in substr
    ensures eof <==> d !in buf[pos..]
    ensures eof ==> substr == buf[pos..] && next == |buf|
    ensures !eof ==> buf[pos..next] == substr + [d]
    ensures Split(buf[pos..], d) == if eof then [substr] else [substr] + Split(buf[next..], d)
  {
    substr, next := [], pos;
    while next < |buf| && buf[next] != d
      invariant pos <= next <= |buf|
      invariant substr == buf[pos..next]
      invariant d !in substr
    {
      substr, next := substr + [buf[next]], next + 1;
    }
    ghost var rest := buf[pos..];
    assert rest[..|substr|] == substr;
    FieldEndIs(rest, d, |substr|);
    eof := next == |buf|;
    if !eof {
      assert rest[|substr| + 1..] == buf[next + 1..];
      next := next + 1;
    } else {
      assert d !in rest by { assert rest == substr; }
    }
  }

  /**
   * The loop that reads a string stream over `fieldsStr` with `getline` on
   * `,` for as long as the stream is still good, appending each field it
   * reads: the fields of `fieldsStr`, in order.
   */
  method ReadFields(fieldsStr: string) returns (fieldsRet: seq<string>)
    ensures fieldsRet == Split(fieldsStr, FieldDelimiter)
  {
    fieldsRet := [];
    var pos := 0;
    var good := true;
    while good
      invariant pos <= |fieldsStr|
      invariant good ==> fieldsRet + Split(fieldsStr[pos..], FieldDelimiter) == Split(fieldsStr, FieldDelimiter)
      invariant !good ==> fieldsRet == Split(fieldsStr, FieldDelimiter)
      decreases |fieldsStr| - pos + (if good then 1 else 0)
    {
      var substr, next, eof := GetLine(fieldsStr, pos, FieldDelimiter);
      fieldsRet := fieldsRet + [substr];
      pos, good := next, !eof;
    }
  }

  /**
   * `extractSentenceData(sen)`: copy the sentence, erase the prefix, keep the
   * next three characters as the format tag, erase the tag and the separator
   * and then the checksum suffix from the rest, and split what is left on
   * commas. A sentence shorter than `MinSentenceLen` makes one of the
   * `erase` calls throw `std::out_of_range`, modelled as a `Failure` naming
   * that call.
   */
  method ExtractSentenceData(sen: string) returns (r: Result<SentenceData, EraseSite>)
    ensures r == Failure(FormatErase) <==> |sen| < PrefixLen + FormatLen
    ensures r == Failure(SuffixErase) <==> PrefixLen + FormatLen <= |sen| < MinSentenceLen
    ensures r.Success? <==> |sen| >= MinSentenceLen
    ensures r.Success? ==> r.value == SentenceSpec(sen)
  {
    var formatRet, fieldsStr: string;
    formatRet := sen;

    // remove the prefix; what remains also starts the field string
    formatRet := Erase(formatRet, 0, Chars(PrefixLen)).value;
    fieldsStr := formatRet;

    // keep only the format tag
    var erased := Erase(formatRet, FormatLen, ToEnd);
    if erased.None? {
      return Failure(FormatErase);
    }
    formatRet := erased.value;

    // remove the format tag and its separator, then the checksum suffix
    fieldsStr := Erase(fieldsStr, 0, Chars(FormatLen + 1)).value;
    erased := Erase(fieldsStr, SizeSub(|fieldsStr|, SuffixLen), ToEnd);
    if erased.None? {
      return Failure(SuffixErase);
    }
    fieldsStr := erased.value;
    assert formatRet == sen[PrefixLen..PrefixLen + FormatLen];
    assert fieldsStr == DataString(sen);

    var fieldsRet := ReadFields(fieldsStr);
    return Success(SentenceData(formatRet, fieldsRet));
  }

  /**
   * The result depends only on the format tag and the data: whatever the
   * three prefix characters, the character after the tag and the three
   * suffix characters are, they are dropped without being inspected.
   */
  lemma OnlyFormatAndDataMatter(prefix: string, format: string, sep: char, data: string, suffix: string)
    requires |prefix| == PrefixLen && |format| == FormatLen && |suffix| == SuffixLen
    ensures SentenceSpec(prefix + format + [sep] + data + suffix) == SentenceData(format, Split(data, FieldDelimiter))
  {
  }

  /** Joining the returned fields with commas rebuilds the data between the separator and `*hh`. */
  lemma FieldsJoinToData(sen: string)
    requires |sen| >= MinSentenceLen
    ensures Join(SentenceSpec(sen).fields, FieldDelimiter) == DataString(sen)
  {
    SplitJoin(DataString(sen), FieldDelimiter);
  }

  /** There is one field more than there are commas in the data, so never zero fields. */
  lemma FieldCount(sen: string)
    requires |sen| >= MinSentenceLen
    ensures |SentenceSpec(sen).fields| == Count(DataString(sen), FieldDelimiter) + 1
  {
    SplitCount(DataString(sen), FieldDelimiter);
  }

  /** No returned field contains a comma. */
  lemma FieldsHaveNoComma(sen: string)
    requires |sen| >= MinSentenceLen
    ensures NoDelimiter(SentenceSpec(sen).fields, FieldDelimiter)
  {
    SplitNoDelimiter(DataString(sen), FieldDelimiter);
  }

  /**
   * The returned fields are the only comma-free list that joins to the data,
   * so field `k` is the `k`-th comma-delimited segment, in order.
   */
  lemma FieldsAreTheSegments(sen: string, segments: seq<string>)
    requires |sen| >= MinSentenceLen
    requires segments != [] && NoDelimiter(segments, FieldDelimiter)
    requires Join(segments, FieldDelimiter) == DataString(sen)
    ensures SentenceSpec(sen).fields == segments
  {
    JoinSplit(segments, FieldDelimiter);
  }

  /** A comma right before `*hh` yields an empty last field. */
  lemma TrailingCommaGivesEmptyField(prefix: string, format: string, data: string, suffix: string)
    requires |prefix| == PrefixLen && |format| == FormatLen && |suffix| == SuffixLen
    ensures SentenceSpec(prefix + format + "," + data + "," + suffix).fields == Split(data, FieldDelimiter) + [""]
  {
    OnlyFormatAndDataMatter(prefix, format, ',', data + ",", suffix);
    assert prefix + format + "," + data + "," + suffix == prefix + format + [','] + (data + [',']) + suffix;
    TrailingDelimiter(data, FieldDelimiter);
  }

  /** A sentence with an empty data part (`$GPGGA,*4F`) yields one empty field, not an empty list. */
  lemma EmptyDataGivesOneEmptyField(sen: string)
    requires |sen| == MinSentenceLen
    ensures SentenceSpec(sen) == SentenceData(sen[PrefixLen..PrefixLen + FormatLen], [""])
  {
  }

  /** `$GPGGA,1,2,3*4F` gives the tag `GGA` and the fields `1`, `2`, `3`. */
  lemma ExampleGGA()
    ensures SentenceSpec("$GPGGA,1,2,3*4F") == SentenceData("GGA", ["1", "2", "3"])
  {
    OnlyFormatAndDataMatter("$GP", "GGA", ',', "1,2,3", "*4F");
    assert "$GP" + "GGA" + [','] + "1,2,3" + "*4F" == "$GPGGA,1,2,3*4F";
    assert "1,2,3" == "1" + [','] + ("2" + [','] + "3");
    SplitConcat("1", "2" + [','] + "3", FieldDelimiter);
    SplitConcat("2", "3", FieldDelimiter);
    FieldEndIs("1", FieldDelimiter, 1);
    FieldEndIs("2", FieldDelimiter, 1);
    FieldEndIs("3", FieldDelimiter, 1);
  }
}
