/** The element record shared by every report kind, and its constants. */
module ReportTypes {
  import opened Machine

  const VALUES_PER_ELEMENT: int := 4
  const ELEMENT_SIZE: int := 64

  const INVALID_INT_VALUE: int64 := INT64_MIN
  // Same bit pattern as INVALID_INT_VALUE, read as an unsigned number.
  const INVALID_VALUE: uint64 := TWO63

  const FORMAT_SIMPLE: uint8 := 1
  const FORMAT_STATE: uint8 := 2
  const FORMAT_HISTOGRAM: uint8 := 3
  const FORMAT_SIMPLE_ARRAY: uint8 := 4

  datatype ChannelType = ChannelType(
    reportFormat: uint8, reserved: uint8, categories: uint16, nelements: uint16, elementIdx: int16)

  /** IOReportElement; V is the view a report kind takes of the 32 bytes of values. */
  datatype Element<V> = Element(
    providerId: uint64, channelId: uint64, channelType: ChannelType, timestamp: uint64, values: V)

  /** Who reports: the arguments every INIT macro copies into each element. */
  datatype Channel = Channel(providerId: uint64, channelId: uint64, categories: uint16)

  /** Element number `no` as the INIT macros leave it. The position goes through int16_t. */
  function InitElement<V>(ch: Channel, format: uint8, nelements: uint16, no: uint16, values: V): Element<V> {
    Element(ch.providerId, ch.channelId,
            ChannelType(format, 0, ch.categories, nelements, ToInt16(no)), 0, values)
  }

  // A buffer filled with '&', as every INIT macro starts.
  const FILL64: uint64 := 0x2626_2626_2626_2626

  function FilledElement<V>(values: V): Element<V> {
    Element(FILL64, FILL64, ChannelType(0x26, 0x26, 0x2626, 0x2626, 0x2626), FILL64, values)
  }
}
