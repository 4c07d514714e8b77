/** Keys and key states as the extended text input protocol reports them. */
module Keys {

  datatype Key = Key(scanCode: bv16, unicodeChar: bv16)

  datatype KeyState = KeyState(shift: bv32, toggle: bv8)

  datatype KeyData = KeyData(key: Key, state: KeyState)

  const SHIFT_STATE_VALID: bv32 := 0x8000_0000
  const TOGGLE_STATE_VALID: bv8 := 0x80

  const NO_KEY := Key(0, 0)
  const NO_STATE := KeyState(0, 0)

  // A state of zero in the registered key stands for any state.
  predicate IsKeyRegistered(registered: KeyData, input: KeyData) {
    && registered.key == input.key
    && (registered.state.shift == 0 || registered.state.shift == input.state.shift)
    && (registered.state.toggle == 0 || registered.state.toggle == input.state.toggle)
  }
}
