// sms_message_t: a sender in 32 characters and a content in 2048, NUL included.
module Messages {
  const SENDER_SIZE := 32
  const CONTENT_SIZE := 2048

  datatype Message = Message(sender: string, content: string)
}
