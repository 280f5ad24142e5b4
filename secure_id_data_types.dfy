/**
 * Value types of Telegram Passport secure values: the gender with its
 * wire string, and a file reference built from the API's secure-file variant.
 */
module SecureIdDataTypes {
  import opened Wrappers
  import opened Primitives

  datatype SecureIdGender = Male | Female

  /** `SecureIdGender.init?(serializedString:)`. */
  function ParseGender(serializedString: string): (r: Option<SecureIdGender>)
    ensures r == Some(Male) <==> serializedString == "male"
    ensures r == Some(Female) <==> serializedString == "female"
  {
    if serializedString == "male" then Some(Male)
    else if serializedString == "female" then Some(Female)
    else None
  }

  /** `SecureIdGender.serialize()`. */
  function SerializeGender(gender: SecureIdGender): (s: string)
    ensures s == "male" || s == "female"
  {
    match gender
    case Male => "male"
    case Female => "female"
  }

  /** Parsing accepts exactly the two serialised forms, each as the gender it serialises. */
  lemma ParseGenderExact(serializedString: string, gender: SecureIdGender)
    ensures ParseGender(serializedString) == Some(gender) <==> SerializeGender(gender) == serializedString
  {
  }

  /** Every other string is refused. */
  lemma ParseGenderRejectsOthers(serializedString: string)
    requires serializedString != "male" && serializedString != "female"
    ensures ParseGender(serializedString) == None
  {
  }

  /** Serialising then parsing is the identity. */
  lemma GenderRoundTrip(gender: SecureIdGender)
    ensures ParseGender(SerializeGender(gender)) == Some(gender)
  {
  }

  /** Distinct genders serialise to distinct strings. */
  lemma SerializeGenderInjective(a: SecureIdGender, b: SecureIdGender)
    requires SerializeGender(a) == SerializeGender(b)
    ensures a == b
  {
  }

  /** `Api.SecureFile`: a stored passport file, or the empty placeholder. */
  datatype SecureFile =
    | SecureFile(id: int64, accessHash: int64, size: int32, dcId: int32, date: int32, fileHash: Bytes, secret: Bytes)
    | SecureFileEmpty

  datatype SecureIdFileReference = SecureIdFileReference(
    id: int64,
    accessHash: int64,
    size: int32,
    datacenterId: int32,
    timestamp: int32,
    fileHash: Bytes,
    encryptedSecret: Bytes)

  /** `SecureIdFileReference.init?(apiFile:)`. */
  function FileReferenceFromApi(apiFile: SecureFile): (r: Option<SecureIdFileReference>)
    ensures r.None? <==> apiFile.SecureFileEmpty?
    ensures r.Some? ==>
      && r.value.id == apiFile.id
      && r.value.accessHash == apiFile.accessHash
      && r.value.size == apiFile.size
      && r.value.datacenterId == apiFile.dcId
      && r.value.timestamp == apiFile.date
      && r.value.fileHash == apiFile.fileHash
      && r.value.encryptedSecret == apiFile.secret
  {
    match apiFile
    case SecureFile(id, accessHash, size, dcId, date, fileHash, secret) =>
      Some(SecureIdFileReference(id, accessHash, size, dcId, date, fileHash, secret))
    case SecureFileEmpty => None
  }

  /** The empty placeholder has no file reference. */
  lemma EmptyFileHasNoReference()
    ensures FileReferenceFromApi(SecureFileEmpty) == None
  {
  }

  /** Two API files with the same reference are the same file: no field is dropped. */
  lemma FileReferenceFromApiInjective(a: SecureFile, b: SecureFile)
    requires FileReferenceFromApi(a).Some? && FileReferenceFromApi(a) == FileReferenceFromApi(b)
    ensures a == b
  {
  }

  /** Every file reference is built from some API file: no field is constrained. */
  lemma FileReferenceFromApiOnto(reference: SecureIdFileReference)
    ensures exists apiFile :: FileReferenceFromApi(apiFile) == Some(reference)
  {
    var apiFile := SecureFile(reference.id, reference.accessHash, reference.size,
      reference.datacenterId, reference.timestamp, reference.fileHash, reference.encryptedSecret);
    assert FileReferenceFromApi(apiFile) == Some(reference);
  }
}
