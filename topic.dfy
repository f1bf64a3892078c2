/**
 * The MQTT topic helper of Inc/topic_name_helper.h: a topic name maps to a
 * small code, and a payload's value is its first character read as a digit.
 */
module Topic {
  import opened LibC

  const LEDS_TOPIC: int := 1
  const LEDH_TOPIC: int := 2
  const LIGHT_TOPIC: int := 3
  const MODE_TOPIC: int := 4

  const LEDS_NAME: string := "leds"
  const LEDH_NAME: string := "ledh"
  const LIGHT_NAME: string := "light"
  const MODE_NAME: string := "mode"

  /**
   * `getTopicCode`: the code of a topic name, compared as whole strings.
   * The C function has no return for any other name; that case is `None`.
   */
  function TopicCode(name: string): (code: Option<int>)
    ensures code.Some? ==> LEDS_TOPIC <= code.value <= MODE_TOPIC
    ensures code.None? <==> name !in {LEDS_NAME, LEDH_NAME, LIGHT_NAME, MODE_NAME}
  {
    if name == LEDS_NAME then Some(LEDS_TOPIC)
    else if name == LEDH_NAME then Some(LEDH_TOPIC)
    else if name == LIGHT_NAME then Some(LIGHT_TOPIC)
    else if name == MODE_NAME then Some(MODE_TOPIC)
    else None
  }

  /** The topic name of each code, the table the lookup is read from. */
  function TopicName(code: int): (name: string)
    requires LEDS_TOPIC <= code <= MODE_TOPIC
    ensures 4 <= |name| <= 5
  {
    if code == LEDS_TOPIC then LEDS_NAME
    else if code == LEDH_TOPIC then LEDH_NAME
    else if code == LIGHT_TOPIC then LIGHT_NAME
    else MODE_NAME
  }

  /** The lookup and the table are inverse: a name has a code exactly when it is that code's name. */
  lemma TopicCodeOfName(name: string, code: int)
    requires LEDS_TOPIC <= code <= MODE_TOPIC
    ensures TopicCode(name) == Some(code) <==> name == TopicName(code)
  {
    if name == TopicName(code) {
      assert TopicCode(name) == Some(code);
    }
  }

  /** Distinct names get distinct codes. */
  lemma TopicCodesDistinct(a: string, b: string)
    requires TopicCode(a).Some? && TopicCode(b).Some?
    ensures TopicCode(a) == TopicCode(b) <==> a == b
  {
    var ca, cb := TopicCode(a).value, TopicCode(b).value;
    TopicCodeOfName(a, ca);
    TopicCodeOfName(b, cb);
  }

  /**
   * `getPayLoadValue`: the first character minus '0'. An empty payload is a
   * C string whose first character is the terminating NUL.
   */
  function PayloadValue(payload: string): (v: int)
    ensures |payload| > 0 ==> v == payload[0] as int - '0' as int
    ensures |payload| > 0 && IsDigit(payload[0]) ==> 0 <= v <= 9
    ensures |payload| == 0 ==> v == -48
  {
    (if |payload| == 0 then NUL else payload[0]) as int - 48
  }

  /** A payload that starts with the digit `d` has value `d`, whatever follows it. */
  lemma PayloadOfDigit(d: nat, rest: string)
    requires d < 10
    ensures PayloadValue([DigitChar(d)] + rest) == d
  {
  }
}
