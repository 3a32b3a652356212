/** What both sides of the protocol share. */
module Protocol {
  import opened Bytes

  datatype NtpVersion = Ntp3 | Ntp4 | Ntp5
  datatype Mode = Client | Server | OtherMode

  /** The length of a header, in every version. */
  const HEADER := 48

  /** "draft-ietf-ntp-ntpv5-09" */
  const DRAFT_VERSION: Bytes :=
    [100, 114, 97, 102, 116, 45, 105, 101, 116, 102, 45, 110, 116, 112, 45, 110, 116, 112, 118, 53, 45, 48, 57]
}
