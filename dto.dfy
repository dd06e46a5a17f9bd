/** The envelope deserialized from an input file: InstrumentStatusDto and its
    DeviceStatusDto records. Reference-typed and nullable members are Options. */
module Dto {
  import opened Options
  import opened XmlDocument

  /** The range of C#'s `int`, the type of `int? IndexWithinRole`. */
  type Int32 = x: int | -0x8000_0000 <= x < 0x8000_0000

  /** One DeviceStatus element of the file. */
  datatype DeviceStatus = DeviceStatus(
    moduleCategoryId: Option<string>,
    indexWithinRole: Option<Int32>,
    rapidControlStatusXml: Option<XmlText>)

  /** The InstrumentStatus root of the file. */
  datatype InstrumentStatus = InstrumentStatus(
    packageId: Option<string>,
    devices: Option<seq<DeviceStatus>>)

  /** `string.IsNullOrEmpty` on a plain string member. */
  predicate IsNullOrEmpty(s: Option<string>) {
    s.None? || s.value == ""
  }

  /** `string.IsNullOrEmpty` on the member holding the embedded document. */
  predicate IsNullOrEmptyXml(x: Option<XmlText>) {
    x.None? || x.value.Empty?
  }
}
