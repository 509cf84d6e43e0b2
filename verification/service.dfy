/** The generative-AI service, seen only through what it returns. */
module Service {

  /** The outcome of one call: it failed (network, quota, credential, or the
      image could not be read), or it replied with a text. */
  datatype Reply = Failed | Replied(text: string)
}
