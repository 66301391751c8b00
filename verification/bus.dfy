/**
 The bus library's messages as the event loop's filters and the service
 helpers see them. Connections, marshalling, serials and sending are outside
 the model: a message is its type, interface, member and argument list.
 */
module Bus {
  import opened Optional
  import opened Bytes

  /** DBUS_MESSAGE_TYPE_*. */
  datatype MessageType = MethodCall | MethodReturn | ErrorReply | Signal | InvalidType

  /** The argument kinds the modelled code reads or writes. */
  datatype Arg =
    | Str(s: string)
    | ObjectPath(path: string)
    | U32(n: Uint32)
    /** The property dictionary `append_dict_args` builds; its encoding is not part of this model. */
    | Options(name: string, autoConnect: Int32)
    | OtherArg

  /** A message; the interface field is optional in a method call and present in a signal. */
  datatype Message = Message(kind: MessageType, iface: Option<string>, member: string, args: seq<Arg>)

  /** DBUS_HANDLER_RESULT_HANDLED and DBUS_HANDLER_RESULT_NOT_YET_HANDLED. */
  datatype HandlerResult = Handled | NotYetHandled

  /** A `DBusError` once set: its name and message. */
  datatype BusError = BusError(name: string, message: string)

  /**
   `dbus_message_is_method_call`: a method call whose member matches and whose
   interface matches or is missing, a missing interface being taken to be the
   one asked for.
   */
  predicate IsMethodCall(m: Message, iface: string, member: string) {
    m.kind == MethodCall && (m.iface.None? || m.iface.value == iface) && m.member == member
  }

  /** `dbus_message_is_signal`: a signal with exactly this interface and member. */
  predicate IsSignal(m: Message, iface: string, member: string) {
    m.kind == Signal && m.iface == Some(iface) && m.member == member
  }

  /** BLUEZ_DBUS_BASE_IFC and the names built on it (include/bluetooth_common.h:13-22). */
  const BluezService: string := "org.bluez"
  const BluezBasePath: string := "/org/bluez"
  const AdapterPath: string := "/org/bluez/hci0"
  const AdapterInterface: string := "org.bluez.Adapter1"
  const DeviceInterface: string := "org.bluez.Device1"
  const ProfileManagerInterface: string := "org.bluez.ProfileManager1"
}
