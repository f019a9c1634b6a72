/** Result codes of the bootloader and their values on the wire. */
module Status {
  import opened Bytes

  datatype Status =
    | Ok
    | ErrMagic | ErrHdrVersion | ErrHdrCrc
    | ErrImageSize | ErrImageCrc | ErrEntryOffset
    | ErrNoValidImage | ErrJumpRefused | ErrNoMetadata
    | ErrFlashErase | ErrFlashProgram | ErrFlashVerify | ErrNotErased
    | ErrInvalidPacket | ErrInvalidArgument | ErrUnknown
  {
    function Code(): byte {
      match this
      case Ok => 0x00
      case ErrMagic => 0x10
      case ErrHdrVersion => 0x11
      case ErrHdrCrc => 0x12
      case ErrImageSize => 0x20
      case ErrImageCrc => 0x21
      case ErrEntryOffset => 0x22
      case ErrNoValidImage => 0x23
      case ErrJumpRefused => 0x24
      case ErrNoMetadata => 0x25
      case ErrFlashErase => 0x31
      case ErrFlashProgram => 0x32
      case ErrFlashVerify => 0x33
      case ErrNotErased => 0x34
      case ErrInvalidPacket => 0x41
      case ErrInvalidArgument => 0x51
      case ErrUnknown => 0x52
    }
  }
}
