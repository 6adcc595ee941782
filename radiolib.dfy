/** The one RadioLib constant the adapter depends on. */
module RadioLib {
  import opened CTypes

  /** RADIOLIB_NC: the pin number RadioLib passes for a pin that is not
      connected to anything. */
  const NC: uint32 := 0xFFFF_FFFF
}
