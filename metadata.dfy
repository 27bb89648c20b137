/**
 * The `Upload-Metadata` header: how creation parses it into a map and how
 * HEAD writes it back.
 */
module UploadMetadata {
  import opened Basics
  import Text
  import Base64

  /** Why parsing fails; in the server each is an uncaught exception. */
  datatype MetadataError =
    | MissingValue(item: string)                      // `key, value = kv.rsplit(" ", 1)` cannot unpack
    | BadValue(item: string, cause: Base64.DecodeError) // `base64.b64decode` raises

  /**
   * One comma-separated item: split at its last space, trim both halves,
   * decode the value. A parsed item's key is the trimmed text before the
   * last space, and its value is what the trimmed text after it decodes to.
   */
  function ParseItem(item: string): (r: Result<(string, Bytes), MetadataError>)
    ensures r.Ok? ==> Text.RSplitOnce(item, ' ').Some?
    ensures r.Ok? ==> var (key, value) := Text.RSplitOnce(item, ' ').value;
                      && r.value.0 == Text.Trim(key, Text.IsSpace)
                      && Base64.Decode(Text.Trim(value, Text.IsSpace)) == Ok(r.value.1)
  {
    match Text.RSplitOnce(item, ' ')
    case None => Err(MissingValue(item))
    case Some((key, value)) =>
      match Base64.Decode(Text.Trim(value, Text.IsSpace))
      case Err(e) => Err(BadValue(item, e))
      case Ok(b) => Ok((Text.Trim(key, Text.IsSpace), b))
  }

  /** An item fails to unpack exactly when it holds no space; any other failure is the value's base64. */
  lemma MissingValueIffNoSpace(item: string)
    ensures ParseItem(item) == Err(MissingValue(item)) <==> ' ' !in item
    ensures ParseItem(item).Err? && ' ' in item ==> ParseItem(item).error.BadValue?
  {
  }

  /** The loop over the items, each one stored under its key in turn; the first failure ends it. */
  function ParseItems(items: seq<string>, acc: map<string, Bytes>): (r: Result<map<string, Bytes>, MetadataError>)
    ensures r.Ok? ==> acc.Keys <= r.value.Keys
    decreases |items|
  {
    if items == [] then Ok(acc)
    else
      var parsed := ParseItem(items[0]);
      if parsed.Err? then Err(parsed.error)
      else ParseItems(items[1..], acc[parsed.value.0 := parsed.value.1])
  }

  /** The creation route's parse: an absent or empty header is no metadata at all. */
  function ParseUploadMetadata(header: Option<string>): (r: Result<map<string, Bytes>, MetadataError>)
    ensures header.None? || header == Some("") ==> r == Ok(map[])
  {
    if header.None? || header.value == "" then Ok(map[])
    else ParseItems(Text.Split(header.value, ','), map[])
  }

  /** Adding an item at the end stores it over whatever the earlier items stored. */
  lemma {:induction false} ParseItemsSnoc(items: seq<string>, item: string, acc: map<string, Bytes>)
    ensures var before, parsed := ParseItems(items, acc), ParseItem(item);
            ParseItems(items + [item], acc) ==
              if before.Err? then before
              else if parsed.Err? then Err(parsed.error)
              else Ok(before.value[parsed.value.0 := parsed.value.1])
    decreases |items|
  {
    if items == [] {
      assert [] + [item] == [item];
      assert [item][1..] == [];
    } else {
      assert (items + [item])[0] == items[0];
      assert (items + [item])[1..] == items[1..] + [item];
      var parsed := ParseItem(items[0]);
      if parsed.Ok? {
        ParseItemsSnoc(items[1..], item, acc[parsed.value.0 := parsed.value.1]);
      }
    }
  }

  /** A later item with the same key wins: the last item's value is the one kept. */
  lemma LaterItemWins(items: seq<string>, item: string, acc: map<string, Bytes>)
    requires ParseItems(items, acc).Ok? && ParseItem(item).Ok?
    ensures var (key, value) := ParseItem(item).value;
            && ParseItems(items + [item], acc).Ok?
            && key in ParseItems(items + [item], acc).value
            && ParseItems(items + [item], acc).value[key] == value
  {
    ParseItemsSnoc(items, item, acc);
  }

  /** An item without a space makes the whole header fail, whatever comes before or after it. */
  lemma {:induction false} ItemWithoutValueFails(items: seq<string>, acc: map<string, Bytes>, j: int)
    requires 0 <= j < |items| && ' ' !in items[j]
    ensures ParseItems(items, acc).Err?
    decreases |items|
  {
    if j == 0 {
      MissingValueIffNoSpace(items[0]);
    } else if ParseItem(items[0]).Ok? {
      var parsed := ParseItem(items[0]).value;
      assert items[1..][j - 1] == items[j];
      ItemWithoutValueFails(items[1..], acc[parsed.0 := parsed.1], j - 1);
    }
  }

  /** The value HEAD sends: `filename <b64>, filetype <b64>`. */
  function EchoHeader(filename: Bytes, filetype: Bytes): string
  {
    "filename " + Base64.Encode(filename) + ", filetype " + Base64.Encode(filetype)
  }

  /** A base64 character is neither whitespace nor a comma. */
  lemma EncodingCharIsPlain(c: char)
    requires Base64.IsEncodingChar(c)
    ensures !Text.IsSpace(c) && c != ','
  {
  }

  /** Base64 text holds no space or comma, so trimming leaves it alone and splitting does not cut it. */
  lemma EncodedUntrimmed(b: Bytes)
    ensures Text.Trim(Base64.Encode(b), Text.IsSpace) == Base64.Encode(b)
    ensures ' ' !in Base64.Encode(b) && ',' !in Base64.Encode(b)
  {
    var s := Base64.Encode(b);
    forall k | 0 <= k < |s|
      ensures !Text.IsSpace(s[k]) && s[k] != ','
    {
      EncodingCharIsPlain(s[k]);
    }
    Text.TrimUntouched(s, Text.IsSpace);
  }

  /** One `key <b64>` item parses back to the key and the bytes. */
  lemma EchoItem(key: string, b: Bytes)
    requires Text.Trim(key, Text.IsSpace) == "filename" || Text.Trim(key, Text.IsSpace) == "filetype"
    ensures ParseItem(key + " " + Base64.Encode(b)) == Ok((Text.Trim(key, Text.IsSpace), b))
  {
    EncodedUntrimmed(b);
    Text.RSplitAt(key, ' ', Base64.Encode(b));
    Base64.RoundTrip(b);
  }

  /** The echoed header splits at its one comma into the two items. */
  lemma EchoSplits(e1: string, e2: string)
    requires ',' !in e1 && ',' !in e2
    ensures Text.Split("filename " + e1 + ", filetype " + e2, ',') == ["filename" + " " + e1, " filetype" + " " + e2]
  {
    var first, second := "filename" + " " + e1, " filetype" + " " + e2;
    assert "filename " + e1 + ", filetype " + e2 == first + [','] + second;
    assert ',' !in first;
    assert ',' !in second;
    Text.SplitAt(first, ',', second);
  }

  /** A key that starts and ends with a letter is kept as it is by `str.strip()`. */
  lemma FilenameKeyTrims()
    ensures Text.Trim("filename", Text.IsSpace) == "filename"
  {
    var key := "filename";
    assert !Text.IsSpace(key[0]) && !Text.IsSpace(key[|key| - 1]);
    Text.TrimUntouched(key, Text.IsSpace);
  }

  /** `str.strip()` drops the space that follows the comma. */
  lemma FiletypeKeyTrims()
    ensures Text.Trim(" filetype", Text.IsSpace) == "filetype"
  {
    var key := " filetype";
    var word := "filetype";
    assert key[1..] == word;
    assert !Text.IsSpace(word[0]) && !Text.IsSpace(word[|word| - 1]);
    assert Text.TrimStart(word, Text.IsSpace) == word;
    assert Text.TrimStart(key, Text.IsSpace) == word by {
      assert Text.IsSpace(key[0]);
    }
    assert Text.TrimEnd(word, Text.IsSpace) == word;
  }

  /** Two items that parse are stored in order. */
  lemma TwoItems(first: string, second: string, k1: string, v1: Bytes, k2: string, v2: Bytes)
    requires ParseItem(first) == Ok((k1, v1)) && ParseItem(second) == Ok((k2, v2))
    ensures ParseItems([first, second], map[]) == Ok(map[k1 := v1, k2 := v2])
  {
    var both, one := [first, second], [second];
    assert both[0] == first && both[1..] == one;
    assert one[0] == second && one[1..] == [];
    assert ParseItems(one, map[k1 := v1]) == Ok(map[k1 := v1, k2 := v2]) by {
      assert ParseItems([], map[k1 := v1, k2 := v2]) == Ok(map[k1 := v1, k2 := v2]);
    }
  }

  /**
   * The header HEAD echoes parses back to exactly the two fields: the space
   * after the comma is trimmed from the second key.
   */
  lemma EchoRoundTrip(filename: Bytes, filetype: Bytes)
    ensures ParseUploadMetadata(Some(EchoHeader(filename, filetype))) == Ok(map["filename" := filename, "filetype" := filetype])
  {
    var e1, e2 := Base64.Encode(filename), Base64.Encode(filetype);
    var first, second := "filename" + " " + e1, " filetype" + " " + e2;
    var header := EchoHeader(filename, filetype);
    assert Text.Split(header, ',') == [first, second] by {
      EncodedUntrimmed(filename);
      EncodedUntrimmed(filetype);
      EchoSplits(e1, e2);
    }
    assert ParseItem(first) == Ok(("filename", filename)) by {
      FilenameKeyTrims();
      EchoItem("filename", filename);
    }
    assert ParseItem(second) == Ok(("filetype", filetype)) by {
      FiletypeKeyTrims();
      EchoItem(" filetype", filetype);
    }
    TwoItems(first, second, "filename", filename, "filetype", filetype);
    assert header != "" by {
      assert |header| > 0;
    }
  }
}
