/**
 * How the two timestamp hooks relate. They are deliberately asymmetric: the
 * serializer writes a date only, the deserializer reads a full timestamp.
 */
module CodecProperties {

  import opened Optional
  import opened InstantSerializer
  import opened InstantDeserializer

  /** The serializer's date-only output is never accepted by the deserializer. */
  lemma DeserializeRejectsSerialized(instant: int, pivot: int)
    requires pivot >= FirstGregorianYear
    ensures Deserialize(Serialize(instant), pivot) == None
  {
  }

  /**
   * Serializing a decoded timestamp whose fields are in range gives back the
   * timestamp's date part `dd-MMM-yy`: both hooks use GMT-7 and Locale.US.
   */
  lemma SerializeRecoversDatePrefix(text: string, pivot: int)
    requires pivot >= FirstGregorianYear
    requires IsTimestampText(text)
    requires InRange(ParseFields(text).value, pivot)
    ensures Serialize(Deserialize(text, pivot).value) == text[..9]
  {
    var f := ParseFields(text).value;
    var d := FieldsDate(f, pivot);
    DeserializeReadsWallClock(text, pivot);
    FormatDateReads(text, d);
  }
}
