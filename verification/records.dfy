/** The part of a host-framework log record the plugins read, and the
    exception classes they compare against. */
module Records {
  import opened Results

  /** Identity of a Python class, as the class table resolves it. */
  type ClassId = string

  /** `record.exc_info` when present: the exception class (`exc_info[0]`)
      and the exception's text (`str(exc_info[1])`). The class is None for
      the tuple `(None, None, None)` that `logger.exception` or
      `exc_info=True` records outside an `except` block; that tuple is
      still truthy, so the record counts as carrying exception info. */
  datatype ExcInfo = ExcInfo(kind: Option<ClassId>, text: string)

  datatype LogRecord = LogRecord(levelno: int, excInfo: Option<ExcInfo>, message: string)

  /** What the interpreter knows about classes: the object a configured
      name resolves to, when it resolves at all; whether that object is a
      class (`import_class("len")` gives a builtin function, not a class);
      and `issubclass` between classes. */
  datatype ClassTable = ClassTable(resolve: map<string, ClassId>, isClass: ClassId -> bool,
                                   isSubclass: (ClassId, ClassId) -> bool)
}
