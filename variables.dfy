/** The constants of model.Variables that the start-up logic uses. */
module Variables {
  const CONFIG_FILENAME := "MCpal.cfg"

  const SERVER_PROPERTIES_NAME := "server.properties"
  const SERVER_PROPERTIES_TEMPLATE_NAME := "server.properties.template"

  const BACKUP_PATH_PREFIX := "--backup-location"
  const BACKUP_PATH_DEFAULT_VALUE := "backup"
  const SERVER_PATH_PREFIX := "--server-location"
  const SERVER_PATH_DEFAULT_VALUE := ""

  const BEDROCK_SERVER_COMMANDS_PREFIX := "--bedrock-commands"
}
