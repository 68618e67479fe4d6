/**
 * Values shared by the module loader and the module manager of the
 * Obsidian server: packet descriptors, module types, the registrations a
 * module's top-level code performs, and the outcomes of a dynamic import.
 */
module RegistryTypes {

  datatype Option<T> = None | Some(value: T)

  /** The `obsidian_packet` marker a module attaches to one of its members. */
  datatype PacketInfo = PacketInfo(direction: string, name: string, description: string, packet: string)

  /** One entry of a module class's `__dict__`: its key and, if any, its packet marker. */
  datatype Member = Member(key: string, marker: Option<PacketInfo>)

  /**
   * The metadata an `AbstractModule` carries.  The decorator passes `None`
   * for a description or version that was not given, hence the options.
   */
  datatype Metadata = Metadata(name: string, description: Option<string>, version: Option<string>)

  /**
   * A module class: the metadata a fresh instance gets from its class
   * attributes, and its members in `__dict__` order.
   */
  datatype ModuleType = ModuleType(defaults: Metadata, members: seq<Member>)

  /** One application of the `Module(name, description, version)` decorator to a class. */
  datatype Registration = Registration(name: string, description: Option<string>, version: Option<string>, moduleType: ModuleType)

  /** The exceptions a dynamic import can raise, as the loader tells them apart. */
  datatype ImportException = ModuleNotFound(missing: string) | OtherError(error: string)

  /**
   * What importing one module identifier does: its top-level code runs the
   * registrations in order and either finishes or raises after some of them.
   */
  datatype ImportOutcome =
    | Loaded(regs: seq<Registration>)
    | Raised(regs: seq<Registration>, exception: ImportException)

  /**
   * The failures `initModules` surfaces: its own `InitError` with its
   * message, or any other exception re-raised unchanged.
   */
  datatype LoadError = InitError(message: string) | Propagated(error: string)
}
