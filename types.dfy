/**
 * The request kinds, the alarm request record and the table that names each
 * kind (types.h).
 */
module Types {

  /** Bounds of a C `int` where `int` is 32 bits wide. */
  const IntMin: int := -0x8000_0000
  const IntMax: int := 0x7FFF_FFFF
  type Int32 = x: int | IntMin <= x <= IntMax

  /** Size of the request's `message` array, terminating NUL included. */
  const MaximumMessageSize: nat := 128

  /** The text a `message` array can hold: it leaves room for the terminator. */
  type Message = s: string | |s| < MaximumMessageSize

  /** The kinds of request, in the order of their declaration (values 0, 1, 2). */
  datatype RequestType = StartAlarm | ChangeAlarm | CancelAlarm

  /**
   * An alarm request as the parser fills it in. The `creation_time` field is
   * never set by the code modelled here and is left out; the `next` link is
   * the `next` field of a list node (NewAlarmCond.Node).
   */
  datatype AlarmRequest = AlarmRequest(alarmId: Int32, kind: RequestType, time: Int32, message: Message)

  /** The integer value of a kind in the C enum. */
  function Ordinal(k: RequestType): (n: nat)
    ensures n < |EnumNames|
    ensures n == 0 <==> k == StartAlarm
    ensures n == 1 <==> k == ChangeAlarm
  {
    match k
    case StartAlarm => 0
    case ChangeAlarm => 1
    case CancelAlarm => 2
  }

  /** The names of the enum values, in declaration order. */
  const EnumNames: seq<string> := ["Start_Alarm", "Change_Alarm", "Cancel_Alarm"]

  /** The name of a request's kind, found by indexing the name table with the enum value. */
  function RequestTypeString(r: AlarmRequest): (name: string)
    ensures name in EnumNames
  {
    EnumNames[Ordinal(r.kind)]
  }

  /** Each kind is named by its own identifier. */
  lemma RequestTypeStringNames(r: AlarmRequest)
    ensures r.kind == StartAlarm ==> RequestTypeString(r) == "Start_Alarm"
    ensures r.kind == ChangeAlarm ==> RequestTypeString(r) == "Change_Alarm"
    ensures r.kind == CancelAlarm ==> RequestTypeString(r) == "Cancel_Alarm"
  {
  }

  /** Two requests get the same name exactly when they have the same kind. */
  lemma RequestTypeStringInjective(a: AlarmRequest, b: AlarmRequest)
    ensures RequestTypeString(a) == RequestTypeString(b) <==> a.kind == b.kind
  {
  }
}
