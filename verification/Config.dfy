/** Sizes the line editor is built with. */
module Config {
  const COMMAND_LINE_LEN := 101
  const COMMAND_TOKEN_NMB := 8
  const RING_LEN := 64
  const PROMPT_LEN := 4
}
