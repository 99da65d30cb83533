/** Entities of NetMailArchiver that the archive run, the archive page and the
    services work with. Values only: the run builds them, the store keeps them. */
module MailModel {

  datatype Option<+T> = None | Some(value: T)

  /** A .NET Guid, abstracted to a natural number (only equality is ever used). */
  type Guid = nat

  /** A DateTime, as a tick count; `DateMinValue` is DateTime.MinValue, the value
      FirstOrDefault yields when an account has no stored mail. */
  type Date = nat
  const DateMinValue: Date := 0

  type Byte = bv8

  /** One stored attachment. `fileName` is optional because the MIME part it
      comes from may have no file name. */
  datatype Attachment = Attachment(
    fileName: Option<string>,
    contentType: string,
    fileSize: int,
    fileData: seq<Byte>)

  /** One archived message. `messageId` and `imapInformationId` are the columns
      the migrations add to the Emails table. */
  datatype Email = Email(
    subject: Option<string>,
    from: string,
    to: string,
    cc: Option<string>,
    bcc: Option<string>,
    htmlBody: Option<string>,
    date: Date,
    messageId: Option<string>,
    attachments: seq<Attachment>,
    imapInformationId: Guid)

  /** A configured mailbox account. */
  datatype ImapInformation = ImapInformation(
    id: Guid,
    host: string,
    port: int,
    useSsl: bool,
    username: string,
    password: string,
    autoArchive: bool,
    archiveInterval: string)
}
